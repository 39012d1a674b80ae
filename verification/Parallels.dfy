/**
 What the two counting parallels and SequenceWithMemory promise: the status is a fixed function of the
 children's results, a finished child is left alone, and a RUNNING control always has a child to wait for.
 */
module Parallels {
  import opened Wrappers
  import opened BehaviourTrees
  import opened TreeInvariant

  predicate Finished(s: Status) {
    s == Success || s == Failure
  }

  /** `final` is a way the RUNNING children of `now` may still end. */
  ghost predicate Completes(now: seq<Tree>, final: seq<Tree>) {
    && |final| == |now|
    && forall i | 0 <= i < |now| ::
         if Finished(now[i].status) then final[i].status == now[i].status else Finished(final[i].status)
  }

  /** The completion that gives every unfinished child the same result s. */
  ghost function CompletedWith(now: seq<Tree>, s: Status): (final: seq<Tree>)
    requires Finished(s)
    ensures Completes(now, final)
  {
    seq(|now|, i requires 0 <= i < |now| => if Finished(now[i].status) then now[i] else now[i].(status := s))
  }

  /** Successes, failures and the rest account for all children. */
  lemma {:induction false} CountsAddUp(children: seq<Tree>)
    requires forall i | 0 <= i < |children| :: children[i].status != Invalid
    ensures Count(children, Success) + Count(children, Failure) + Count(children, Running) == |children|
  {
    if children == [] {
    } else {
      assert children[0].status != Invalid;
      CountsAddUp(children[1..]);
    }
  }

  lemma {:induction false} CompletionCounts(now: seq<Tree>, final: seq<Tree>)
    requires Completes(now, final)
    ensures Count(now, Success) <= Count(final, Success) <= |now| - Count(now, Failure)
    ensures final == CompletedWith(now, Success) ==> Count(final, Success) == |now| - Count(now, Failure)
  {
    if now == [] {
    } else {
      assert Completes(now[1..], final[1..]);
      CompletionCounts(now[1..], final[1..]);
      assert final == CompletedWith(now, Success) ==> final[1..] == CompletedWith(now[1..], Success);
    }
  }

  /**
   The early verdict is exact: the Parallel gives up on success_count if and only if no way of finishing the
   remaining children reaches it.
   */
  lemma UnreachableIsExact(now: seq<Tree>, sc: int)
    requires forall i | 0 <= i < |now| :: now[i].status != Invalid
    ensures Count(now, Success) + (|now| - Count(now, Success) - Count(now, Failure)) < sc
       <==> forall final | Completes(now, final) :: Count(final, Success) < sc
  {
    CountsAddUp(now);
    forall final | Completes(now, final)
      ensures Count(final, Success) <= |now| - Count(now, Failure)
    {
      CompletionCounts(now, final);
    }
    var best := CompletedWith(now, Success);
    CompletionCounts(now, best);
  }

  /** The children of a CountingParallel when it decides, before it halts the ones it abandons. */
  ghost function Decided<W>(env: Env<W>, t: Tree, w: W): (r: Run<W>)
    requires Fits(Skeleton(t)) && t.kind.CountingParallel?
  {
    var h := if t.status == Running then Run(t, w) else HaltKids(env, t, false, 0, w);
    TickUnfinished(env, h.t, 0, Begin(env, t, h.w))
  }

  /** Every clause of a CountingParallel's tick. */
  lemma CountingVerdict<W>(env: Env<W>, t: Tree, w: W)
    requires Fits(Skeleton(t)) && t.kind.CountingParallel? && AllTidy(t.children)
    // nothing to run succeeds, whatever the counts are
    ensures t.children == [] ==> Tick(env, t, w).t.children == [] && Tick(env, t, w).t.status == Success
    ensures t.children != [] ==>
            var kids := Decided(env, t, w).t.children;
            var r := Tick(env, t, w).t;
            var successes, failures := Count(kids, Success), Count(kids, Failure);
            && |kids| == |t.children| == |r.children|
            && (forall i | 0 <= i < |kids| :: kids[i].status != Invalid)
            // failure_count first, then success_count, then the early verdict
            && (failures >= t.kind.failureCount ==> r.status == Failure)
            && (failures < t.kind.failureCount && successes >= t.kind.successCount ==> r.status == Success)
            && (failures < t.kind.failureCount && successes < t.kind.successCount ==>
                  (r.status == Failure <==>
                   forall final | Completes(kids, final) :: Count(final, Success) < t.kind.successCount)
                  && (r.status == Running || r.status == Failure))
            // never a deadlock
            && (r.status == Running ==> r.children == kids && exists i :: 0 <= i < |kids| && kids[i].status == Running)
            // a finished child keeps its result; an abandoned one is halted
            && (r.status != Running ==> forall i | 0 <= i < |kids| ::
                  if kids[i].status == Running then r.children[i].status == Invalid else r.children[i] == kids[i])
  {
    hide TickUnfinished;
    HaltKidsIsTidy(env, t, false, 0, w);
    if t.children == [] {
      return;
    }
    hide HaltKids, Tidy, Count, Fits, Completes;
    var h := if t.status == Running then Run(t, w) else HaltKids(env, t, false, 0, w);
    var w1 := Begin(env, t, h.w);
    UnfinishedIsTidy(env, h.t, 0, w1);
    DecidedThenFinished(env, t, w);
    var d := Decided(env, t, w);
    var kids := d.t.children;
    SameLength(h.t, t);
    hide Tick;
    CountsAddUp(kids);
    CountZero(kids, Running);
    UnreachableIsExact(kids, t.kind.successCount);
    StopReleases(env, d.t, w, d.w);
  }

  lemma DecidedThenFinished<W>(env: Env<W>, t: Tree, w: W)
    requires Fits(Skeleton(t)) && t.kind.CountingParallel? && t.children != []
    ensures var d := Decided(env, t, w);
            && d.t.kind == t.kind
            && Tick(env, t, w) == Finish(env, d.t, CountingStatus(Count(d.t.children, Success),
                 Count(d.t.children, Failure), |d.t.children|, t.kind.successCount, t.kind.failureCount), d.w)
  {
    hide HaltKids, TickUnfinished, Finish, CountingStatus, Count, Fits;
  }

  lemma SameLength(a: Tree, b: Tree)
    requires Skeleton(a) == Skeleton(b)
    ensures |a.children| == |b.children| && a.kind == b.kind && a.id == b.id
  {
    assert |Skeleton(a).children| == |a.children| && |Skeleton(b).children| == |b.children|;
  }

  lemma StopReleases<W>(env: Env<W>, t: Tree, w0: W, w: W)
    requires AllTidy(t.children) && t.kind.CountingParallel?
    requires forall i | 0 <= i < |t.children| :: t.children[i].status != Invalid
    ensures forall s | s == Success || s == Failure ::
              var kids := Stop(env, t, s, w).t.children;
              |kids| == |t.children| && forall i | 0 <= i < |kids| ::
                if t.children[i].status == Running then kids[i].status == Invalid else kids[i] == t.children[i]
  {
    HaltKidsIsTidy(env, t, true, 0, w);
    HaltedAreInvalid(env, t, 0, w);
  }

  /** A child that HaltKids does stop ends INVALID. */
  lemma {:induction false} HaltedAreInvalid<W>(env: Env<W>, t: Tree, i: nat, w: W)
    requires AllTidy(t.children)
    ensures var r := HaltKids(env, t, true, i, w).t.children;
            |r| == |t.children| && forall j | i <= j < |r| && t.children[j].status == Running :: r[j].status == Invalid
    decreases |t.children| - i
  {
    HaltKidsIsTidy(env, t, true, i, w);
    if i >= |t.children| {
    } else {
      if t.children[i].status == Running {
        HaltChildIsTidy(env, t, i, w);
        var r := HaltChild(env, t, i, w);
        HaltKidsIsTidy(env, r.t, true, i + 1, r.w);
        HaltedAreInvalid(env, r.t, i + 1, r.w);
      } else {
        HaltedAreInvalid(env, t, i + 1, w);
      }
    }
  }

  /** While a parallel runs, a child that has finished is not ticked again. */
  lemma FinishedChildIsFrozen<W>(env: Env<W>, t: Tree, i: nat, w: W)
    requires Fits(Skeleton(t)) && (t.kind.CountingParallel? || t.kind.ParallelAll?)
    requires AllTidy(t.children) && t.status == Running
    requires i < |t.children| && Finished(t.children[i].status)
    ensures i < |Tick(env, t, w).t.children| && Tick(env, t, w).t.children[i] == t.children[i]
  {
    hide Tidy, Fits, TickUnfinished, HaltKids;
    UnfinishedIsTidy(env, t, 0, w);
    var r := TickUnfinished(env, t, 0, w);
    if t.kind.CountingParallel? {
      StopReleases(env, r.t, w, r.w);
    } else {
      assert Tick(env, t, w) == TickParallelAll(env, t, w) == AllFrom(env, t, w);
    }
  }

  /** ParallelAll's `max_failures` port, where a tick reads it. */
  ghost function LimitPort<W>(env: Env<W>, t: Tree, w: W): Option<int> {
    env.number(t.id, HaltKids(env, t, false, 0, env.initialise(t.id, w)).w)
  }

  /** ParallelAll waits for every child and then judges by the number of failures. */
  lemma ParallelAllVerdict<W>(env: Env<W>, t: Tree, w: W)
    requires Fits(Skeleton(t)) && t.kind == ParallelAll && Tidy(t)
    // an activation whose limit cannot be read fails, its children halted
    ensures t.status != Running && LimitPort(env, t, w).None? ==>
              var r := Tick(env, t, w).t;
              |r.children| == |t.children| && r.status == Failure
              && forall i | 0 <= i < |r.children| :: r.children[i].status == Invalid
    ensures t.status == Running || LimitPort(env, t, w).Some? ==>
            var r := Tick(env, t, w).t;
            && |r.children| == |t.children|
            // the port is read once, and a negative limit counts from the number of children down
            && r.mem.limit == (if t.status == Running then t.mem.limit
                               else
                                 var v := LimitPort(env, t, w).value;
                                 if v < 0 then |t.children| + v + 1 else v)
            && (forall i | 0 <= i < |r.children| :: r.children[i].status != Invalid)
            && (r.status == Running <==> exists i :: 0 <= i < |r.children| && r.children[i].status == Running)
            && (r.status == Failure <==> (forall i | 0 <= i < |r.children| :: Finished(r.children[i].status))
                                         && Count(r.children, Failure) >= Max(r.mem.limit, 1))
  {
    assert Tick(env, t, w) == TickParallelAll(env, t, w);
    if t.status == Running {
      AllFromVerdict(env, t, w);
    } else {
      var w1 := env.initialise(t.id, w);
      HaltKidsIsTidy(env, t, false, 0, w1);
      var r := HaltKids(env, t, false, 0, w1);
      if LimitPort(env, t, w).None? {
        return;
      }
      AllFromVerdict(env, r.t.(mem := r.t.mem.(limit := CountFrom(LimitPort(env, t, w).value, |t.children|))), r.w);
    }
  }

  lemma AllFromVerdict<W>(env: Env<W>, t: Tree, w: W)
    requires Fits(Skeleton(t)) && t.kind == ParallelAll && AllTidy(t.children)
    ensures var r := AllFrom(env, t, w).t;
            && |r.children| == |t.children| && r.mem == t.mem
            && (forall i | 0 <= i < |r.children| :: r.children[i].status != Invalid)
            && (r.status == Running <==> exists i :: 0 <= i < |r.children| && r.children[i].status == Running)
            && (r.status == Failure <==> (forall i | 0 <= i < |r.children| :: Finished(r.children[i].status))
                                         && Count(r.children, Failure) >= Max(t.mem.limit, 1))
  {
    hide Tick;
    UnfinishedIsTidy(env, t, 0, w);
    CountZero(TickUnfinished(env, t, 0, w).t.children, Running);
  }

  /** "-1 = all": with n children, k failures reach the limit -1 exactly when all n failed. */
  lemma MinusOneMeansAll(children: seq<Tree>)
    requires children != []
    ensures Count(children, Failure) >= Max(CountFrom(-1, |children|), 1)
       <==> forall i | 0 <= i < |children| :: children[i].status == Failure
  {
    AllCounted(children, Failure);
  }

  lemma {:induction false} AllCounted(children: seq<Tree>, s: Status)
    ensures Count(children, s) == |children| <==> forall i | 0 <= i < |children| :: children[i].status == s
  {
    if children == [] {
    } else {
      AllCounted(children[1..], s);
      assert forall i | 1 <= i < |children| :: children[i] == children[1..][i - 1];
    }
  }

  /** SequenceWithMemory never ticks the children in front of its index; it only moves on or starts over. */
  lemma {:induction false} MemoryKeepsPassed<W>(env: Env<W>, t: Tree, w: W)
    requires Fits(Skeleton(t)) && t.kind == SequenceWithMemory && AllTidy(t.children) && t.mem.index <= |t.children|
    ensures var r := MemoryFrom(env, t, w).t;
            && |r.children| == |t.children|
            && (forall j | 0 <= j < t.mem.index :: r.children[j] == t.children[j])
            && (r.status == Success ==> r.mem.index == 0)
            && (r.status != Success ==>
                  && t.mem.index <= r.mem.index < |t.children|
                  && r.children[r.mem.index].status == r.status
                  && (forall j | t.mem.index <= j < r.mem.index :: r.children[j].status == Success)
                  && (forall j | r.mem.index < j < |t.children| :: r.children[j] == t.children[j]))
    decreases |t.children| - t.mem.index
  {
    hide Tick, TickChild, Fits, Skeleton, AllTidy, Tidy, HaltKids;
    var i := t.mem.index;
    if i >= |t.children| {
    } else {
      ChildIsTidy(env, t, i, w);
      var r := TickChild(env, t, i, w);
      if r.t.children[i].status == Success {
        MemoryIsNoShape(r.t, r.t.mem.(index := i + 1));
        MemoryKeepsPassed(env, r.t.(mem := r.t.mem.(index := i + 1)), r.w);
      }
    }
  }

  lemma MemoryIsNoShape(t: Tree, mem: Memory)
    ensures Skeleton(t.(mem := mem)) == Skeleton(t)
  {
  }

  // ------------------------------------------------------------------- over whole activations

  /** The events are ticks, and the node is RUNNING before each of them. */
  ghost predicate OneActivation<W>(t: Tree, events: seq<Event<W>>)
    requires Fits(Skeleton(t))
  {
    forall k | 0 <= k < |events| :: events[k].TickBy? && After(t, events[..k]).status == Running
  }

  /** What has finished stays as it is until the parallel ends, through all the ticks of the activation. */
  lemma {:induction false} FinishedChildStaysFrozen<W>(t: Tree, events: seq<Event<W>>, i: nat)
    requires Fits(Skeleton(t)) && Tidy(t) && (t.kind.ParallelAll? || t.kind.CountingParallel?)
    requires i < |t.children| && Finished(t.children[i].status) && OneActivation(t, events)
    ensures var r := After(t, events); Tidy(r) && |r.children| == |t.children| && r.children[i] == t.children[i]
    decreases |events|
  {
    hide Fits, Skeleton, Tick, Stop, Tidy;
    if events == [] {
    } else {
      var n := |events| - 1;
      assert forall k | 0 <= k < n :: events[..n][..k] == events[..k];
      FinishedChildStaysFrozen(t, events[..n], i);
      var before := After(t, events[..n]);
      SameLength(before, t);
      TickIsTidy(events[n].env, before, events[n].w);
      KidsAreTidy(before);
      FinishedChildIsFrozen(events[n].env, before, i, events[n].w);
      SameLength(After(t, events), t);
    }
  }

  /** The events are ticks, and none but perhaps the last makes the node succeed. */
  ghost predicate NotDoneYet<W>(t: Tree, events: seq<Event<W>>)
    requires Fits(Skeleton(t))
  {
    forall k | 0 <= k < |events| :: events[k].TickBy? && (k > 0 ==> After(t, events[..k]).status != Success)
  }

  /**
   A SequenceWithMemory that is ticked again, after a failure as well, does not touch what it has passed and never goes
   back, until all its children have succeeded.
   */
  lemma {:induction false} PassedStaysPassed<W>(t: Tree, events: seq<Event<W>>)
    requires Fits(Skeleton(t)) && Tidy(t) && t.kind == SequenceWithMemory && t.mem.index <= |t.children|
    requires NotDoneYet(t, events)
    ensures var r := After(t, events);
            && Tidy(r) && |r.children| == |t.children|
            && (forall j | 0 <= j < t.mem.index :: r.children[j] == t.children[j])
            && (if events != [] && r.status == Success then r.mem.index == 0 else t.mem.index <= r.mem.index <= |t.children|)
    decreases |events|
  {
    hide Fits, Skeleton, Tick, Stop, Tidy;
    if events == [] {
    } else {
      var n := |events| - 1;
      assert forall k | 0 <= k < n :: events[..n][..k] == events[..k];
      PassedStaysPassed(t, events[..n]);
      var before := After(t, events[..n]);
      SameLength(before, t);
      var (env, w) := (events[n].env, events[n].w);
      TickIsTidy(env, before, w);
      TickFromMemory(env, before, w);
      SameLength(After(t, events), t);
    }
  }

  /** A halt makes it start over, and it ticks its children from the first on in the next tick; nothing else does. */
  lemma HaltedStartsOver<W>(env: Env<W>, t: Tree, s: Status, w: W)
    requires t.kind == SequenceWithMemory
    ensures Stop(env, t, s, w).t.mem.index == if s == Invalid then 0 else t.mem.index
  {
  }

  lemma TickFromMemory<W>(env: Env<W>, t: Tree, w: W)
    requires Fits(Skeleton(t)) && Tidy(t) && t.kind == SequenceWithMemory && t.mem.index <= |t.children|
    ensures var r := Tick(env, t, w).t;
            && |r.children| == |t.children|
            && (forall j | 0 <= j < t.mem.index :: r.children[j] == t.children[j])
            && (if r.status == Success then r.mem.index == 0 else t.mem.index <= r.mem.index < |t.children|)
  {
    assert AllTidy(t.children);
    hide Fits, Skeleton, Tidy, MemoryFrom;
    MemoryKeepsPassed(env, t, Begin(env, t, w));
  }
}
