/**
 How nodes are called: `initialise` is where a leaf starts something (a navigation goal, a sound) and `terminate` where
 it cancels it. A leaf is called in the right order through any run, and a stop reaches each living node, once, and the
 node that is stopped after all the nodes below it.
 */
module NodeCalls {
  import opened Wrappers
  import opened BehaviourTrees
  import opened TreeInvariant
  import opened NodeRuns

  // ------------------------------------------------------------------------- the calls of a leaf

  /** Children that some leaf was given are not ticked. */
  ghost predicate Idle(c: Tree) {
    forall i | 0 <= i < |c.children| :: c.children[i].status == Invalid
  }

  /** What is called in one event, in this order. */
  ghost function CallsIn<W>(c: Tree, e: Event<W>): seq<Move>
    requires Fits(Skeleton(c))
  {
    if e.HaltBy? then [Terminates(c.id, Invalid)]
    else
      (if c.status == Running then [] else [Initialises(c.id)]) + [Updates(c.id)]
      + if Once(c, e).status == Running then [] else [Terminates(c.id, Once(c, e).status)]
  }

  lemma {:induction false} IdleKidsStay<W>(env: Env<W>, c: Tree, i: nat, w: W)
    requires Idle(c)
    ensures HaltKids(env, c, false, i, w) == Run(c, w)
    decreases |c.children| - i
  {
    if i < |c.children| {
      IdleKidsStay(env, c, i + 1, w);
    }
  }

  lemma OneMove<W>(env: Env<W>, w: W, m: Move)
    ensures Moved(env, w, [m]) == MovedBy(env, w, m)
  {
    assert [m][1..] == [];
  }

  /** These calls are all that an event does for a leaf. */
  lemma LeafIsCalled<W>(c: Tree, e: Event<W>)
    requires Fits(Skeleton(c)) && c.kind.Leaf? && Idle(c)
    ensures OnceWorld(c, e) == Moved(e.env, e.w, CallsIn(c, e))
    ensures Once(c, e).children == c.children && Once(c, e).kind == c.kind && Once(c, e).id == c.id
    ensures e.TickBy? ==> Once(c, e).status == e.env.update(c.id, Begin(e.env, c, e.w)).0
    ensures e.HaltBy? ==> Once(c, e).status == Invalid
  {
    var env := e.env;
    if e.HaltBy? {
      IdleKidsStay(env, c, 0, e.w);
      OneMove(env, e.w, Terminates(c.id, Invalid));
    } else {
      var first := if c.status == Running then [] else [Initialises(c.id)];
      var w1 := Begin(env, c, e.w);
      OneMove(env, e.w, Initialises(c.id));
      assert Moved(env, e.w, first) == w1;
      var (s, w2) := env.update(c.id, w1);
      OneMove(env, w1, Updates(c.id));
      MovedTwice(env, e.w, first, [Updates(c.id)]);
      var last := if s == Running then [] else [Terminates(c.id, s)];
      OneMove(env, w2, Terminates(c.id, s));
      MovedTwice(env, e.w, first + [Updates(c.id)], last);
      assert Tick(env, c, e.w) == Finish(env, c, s, w2);
    }
  }

  ghost function CallsOver<W>(c: Tree, events: seq<Event<W>>): seq<Move>
    requires Fits(Skeleton(c))
    decreases |events|
  {
    if events == [] then []
    else
      var n := |events| - 1;
      CallsOver(c, events[..n]) + CallsIn(After(c, events[..n]), events[n])
  }

  /** Initialised, and not terminated since. */
  ghost predicate Active(before: bool, calls: seq<Move>) {
    if calls == [] then before
    else
      match calls[|calls| - 1]
      case Initialises(_) => true
      case Terminates(_, _) => false
      case _ => Active(before, calls[..|calls| - 1])
  }

  /** Initialised only when not active, updated only when active, and no result unless active. */
  ghost predicate Orderly(before: bool, calls: seq<Move>) {
    calls != [] ==>
      var earlier := calls[..|calls| - 1];
      && Orderly(before, earlier)
      && match calls[|calls| - 1]
         case Initialises(_) => !Active(before, earlier)
         case Updates(_) => Active(before, earlier)
         case Terminates(_, s) => s == Invalid || Active(before, earlier)
         case Writes(_, _) => false
  }

  lemma OneCallMore(before: bool, calls: seq<Move>, m: Move)
    ensures Active(before, calls + [m]) == match m
                                           case Initialises(_) => true
                                           case Terminates(_, _) => false
                                           case _ => Active(before, calls)
    ensures Orderly(before, calls + [m])
       <==> Orderly(before, calls) && match m
                                      case Initialises(_) => !Active(before, calls)
                                      case Updates(_) => Active(before, calls)
                                      case Terminates(_, s) => s == Invalid || Active(before, calls)
                                      case Writes(_, _) => false
  {
    assert (calls + [m])[..|calls|] == calls;
  }

  /**
   Through any run a leaf is called in order: `initialise`, then `update` in every tick, then `terminate` with the
   result, and only then `initialise` again; it is between the two exactly when it is RUNNING.
   */
  lemma {:induction false} LeafIsCalledInOrder<W>(c: Tree, events: seq<Event<W>>)
    requires Fits(Skeleton(c)) && c.kind.Leaf? && Idle(c)
    ensures var r := After(c, events);
            var calls := CallsOver(c, events);
            && r.children == c.children && r.kind == c.kind && r.id == c.id
            && Orderly(c.status == Running, calls)
            && (r.status == Running <==> Active(c.status == Running, calls))
            && (events != [] && r.status != Running ==>
                  calls != [] && calls[|calls| - 1] == Terminates(c.id, r.status))
    decreases |events|
  {
    hide Fits, Skeleton, Tick, Stop;
    if events == [] {
    } else {
      var n := |events| - 1;
      LeafIsCalledInOrder(c, events[..n]);
      var u, e := After(c, events[..n]), events[n];
      LeafIsCalled(u, e);
      assert After(c, events) == Once(u, e);
      OneEventMore(c.status == Running, CallsOver(c, events[..n]), u, e);
    }
  }

  lemma OneEventMore<W>(before: bool, calls: seq<Move>, u: Tree, e: Event<W>)
    requires Fits(Skeleton(u)) && Orderly(before, calls) && (u.status == Running <==> Active(before, calls))
    requires e.HaltBy? ==> Once(u, e).status == Invalid
    ensures Orderly(before, calls + CallsIn(u, e))
    ensures Once(u, e).status == Running <==> Active(before, calls + CallsIn(u, e))
    ensures Once(u, e).status != Running ==> CallsIn(u, e)[|CallsIn(u, e)| - 1] == Terminates(u.id, Once(u, e).status)
  {
    hide Fits, Skeleton, Once, Orderly, Active;
    var s := Once(u, e).status;
    if e.HaltBy? {
      OneCallMore(before, calls, Terminates(u.id, Invalid));
    } else {
      var a := if u.status == Running then calls else calls + [Initialises(u.id)];
      OneCallMore(before, calls, Initialises(u.id));
      OneCallMore(before, a, Updates(u.id));
      var b := a + [Updates(u.id)];
      OneCallMore(before, b, Terminates(u.id, s));
      assert calls + CallsIn(u, e) == if s == Running then b else b + [Terminates(u.id, s)];
    }
  }

  // ------------------------------------------------------------------------------ what a stop ends

  type Line = (nat, Status)

  /** Something in the world holds a line for every `terminate`. */
  ghost predicate Logger<W(!new)>(env: Env<W>, log: W -> seq<Line>) {
    forall id, s, w :: log(env.terminate(id, s, w)) == log(w) + [(id, s)]
  }

  predicate Chosen(c: Tree, onlyRunning: bool) {
    if onlyRunning then c.status == Running else c.status != Invalid
  }

  /** The ids of a node and of the nodes below it that are not INVALID, nor below one that is. */
  ghost function Living(t: Tree): multiset<nat>
    decreases t, 1
  {
    multiset{t.id} + LivingOf(t.children, false)
  }

  ghost function LivingOf(ts: seq<Tree>, onlyRunning: bool): multiset<nat>
    decreases ts, 0
  {
    if ts == [] then multiset{}
    else (if Chosen(ts[0], onlyRunning) then Living(ts[0]) else multiset{}) + LivingOf(ts[1..], onlyRunning)
  }

  ghost function Ids(lines: seq<Line>): multiset<nat> {
    if lines == [] then multiset{} else Ids(lines[..|lines| - 1]) + multiset{lines[|lines| - 1].0}
  }

  /** These nodes were halted, one line each. */
  ghost predicate Ended(lines: seq<Line>, ids: multiset<nat>) {
    Ids(lines) == ids && forall l | l in lines :: l.1 == Invalid
  }

  lemma {:induction false} IdsOfBoth(a: seq<Line>, b: seq<Line>)
    ensures Ids(a + b) == Ids(a) + Ids(b)
    decreases |b|
  {
    if b == [] {
      assert a + b == a;
    } else {
      var n := |b| - 1;
      assert (a + b)[..|a + b| - 1] == a + b[..n];
      IdsOfBoth(a, b[..n]);
    }
  }

  lemma EndedBoth(a: seq<Line>, b: seq<Line>, x: multiset<nat>, y: multiset<nat>)
    requires Ended(a, x) && Ended(b, y)
    ensures Ended(a + b, x + y)
  {
    IdsOfBoth(a, b);
  }

  /** The lines that were added between two worlds. */
  ghost predicate Adds<W>(log: W -> seq<Line>, a: W, b: W, lines: seq<Line>) {
    log(b) == log(a) + lines
  }

  lemma AddsBoth<W>(log: W -> seq<Line>, a: W, b: W, c: W, x: seq<Line>, y: seq<Line>)
    requires Adds(log, a, b, x) && Adds(log, b, c, y)
    ensures Adds(log, a, c, x + y)
  {
    assert (log(a) + x) + y == log(a) + (x + y);
  }

  /** What a stop with status s is to reach below the node: all that lives, or the RUNNING children of a Parallel. */
  ghost function Reached(t: Tree, s: Status): multiset<nat> {
    if s == Invalid then LivingOf(t.children, false)
    else if t.kind.CountingParallel? then LivingOf(t.children, true)
    else multiset{}
  }

  /** A stop ends each living node below, once, and then the node itself. */
  lemma {:induction false} StopEndsTheLiving<W(!new)>(env: Env<W>, log: W -> seq<Line>, t: Tree, s: Status, w: W)
    returns (below: seq<Line>)
    requires Logger(env, log)
    ensures Adds(log, w, Stop(env, t, s, w).w, below + [(t.id, s)]) && Ended(below, Reached(t, s))
    decreases Skeleton(t), 2
  {
    hide LivingOf, HaltKids, Ended, Adds, Logger;
    below := [];
    var r := Run(t, w);
    NoLines(log, w, [], false);
    assert t.children[0..] == t.children;
    if t.kind.CountingParallel? {
      below := HaltKidsEnd(env, log, t, true, 0, w);
      r := HaltKids(env, t, true, 0, w);
    }
    if s == Invalid {
      var more := HaltKidsEnd(env, log, r.t, false, 0, r.w);
      assert r.t.children[0..] == r.t.children;
      var q := HaltKids(env, r.t, false, 0, r.w);
      AddsBoth(log, w, r.w, q.w, below, more);
      if t.kind.CountingParallel? {
        RunningFirst(env, t, w);
        EndedBoth(below, more, LivingOf(t.children, true), LivingOf(r.t.children, false));
        below := below + more;
      } else {
        assert below + more == more;
        below := more;
      }
      r := q;
    }
    LogsIt(env, log, t.id, s, r.w);
    AddsBoth(log, w, r.w, Stop(env, t, s, w).w, below, [(t.id, s)]);
  }

  lemma LogsIt<W(!new)>(env: Env<W>, log: W -> seq<Line>, id: nat, s: Status, w: W)
    requires Logger(env, log)
    ensures Adds(log, w, env.terminate(id, s, w), [(id, s)])
  {
  }

  lemma {:induction false} HaltKidsEnd<W(!new)>(env: Env<W>, log: W -> seq<Line>, t: Tree, onlyRunning: bool, i: nat, w: W)
    returns (lines: seq<Line>)
    requires Logger(env, log) && i <= |t.children|
    ensures Adds(log, w, HaltKids(env, t, onlyRunning, i, w).w, lines)
    ensures Ended(lines, LivingOf(t.children[i..], onlyRunning))
    decreases Skeleton(t), 1, |t.children| - i
  {
    hide Stop, Logger, LivingOf, Ended, Adds, Living;
    if i == |t.children| {
      lines := [];
      NoLines(log, w, t.children[i..], onlyRunning);
    } else {
      var c := t.children[i];
      var first := [];
      var r := Run(t, w);
      NoLines(log, w, [], onlyRunning);
      if Chosen(c, onlyRunning) {
        assert Skeleton(t).children[i] == Skeleton(c);
        first := ChildEnds(env, log, t, i, w);
        r := HaltChild(env, t, i, w);
      }
      var rest := HaltKidsEnd(env, log, r.t, onlyRunning, i + 1, r.w);
      lines := first + rest;
      assert r.t.children[i + 1..] == t.children[i + 1..];
      AddsBoth(log, w, r.w, HaltKids(env, r.t, onlyRunning, i + 1, r.w).w, first, rest);
      OneLives(t.children, i, onlyRunning);
      EndedBoth(first, rest, if Chosen(c, onlyRunning) then Living(c) else multiset{},
                LivingOf(t.children[i + 1..], onlyRunning));
    }
  }

  lemma {:induction false} ChildEnds<W(!new)>(env: Env<W>, log: W -> seq<Line>, t: Tree, i: nat, w: W)
    returns (lines: seq<Line>)
    requires Logger(env, log) && i < |t.children|
    ensures Adds(log, w, HaltChild(env, t, i, w).w, lines) && Ended(lines, Living(t.children[i]))
    decreases Skeleton(t), 0
  {
    hide Stop, Logger, LivingOf, Ended, Adds;
    var c := t.children[i];
    assert Skeleton(t).children[i] == Skeleton(c);
    var below := StopEndsTheLiving(env, log, c, Invalid, w);
    lines := below + [(c.id, Invalid)];
    OneLine(c.id);
    EndedBoth(below, [(c.id, Invalid)], LivingOf(c.children, false), multiset{c.id});
    assert Living(c) == LivingOf(c.children, false) + multiset{c.id};
  }

  lemma OneLine(id: nat)
    ensures Ended([(id, Invalid)], multiset{id})
  {
    assert [(id, Invalid)][..0] == [];
  }

  lemma NoLines<W>(log: W -> seq<Line>, w: W, ts: seq<Tree>, onlyRunning: bool)
    requires ts == []
    ensures Adds(log, w, w, []) && Ended([], LivingOf(ts, onlyRunning)) && LivingOf(ts, onlyRunning) == multiset{}
  {
  }

  lemma OneLives(ts: seq<Tree>, i: nat, onlyRunning: bool)
    requires i < |ts|
    ensures LivingOf(ts[i..], onlyRunning)
         == (if Chosen(ts[i], onlyRunning) then Living(ts[i]) else multiset{}) + LivingOf(ts[i + 1..], onlyRunning)
  {
    assert ts[i..][1..] == ts[i + 1..];
  }

  /** A Parallel halts its RUNNING children first; then what is left of the living is not one of those. */
  lemma RunningFirst<W>(env: Env<W>, t: Tree, w: W)
    ensures LivingOf(t.children, false)
         == LivingOf(t.children, true) + LivingOf(HaltKids(env, t, true, 0, w).t.children, false)
  {
    RunningAreHalted(env, t, 0, w);
    LeftOver(t.children, HaltKids(env, t, true, 0, w).t.children);
  }

  /** The same children, but INVALID where one was RUNNING. */
  ghost predicate Quietened(ts: seq<Tree>, us: seq<Tree>, i: nat) {
    |us| == |ts| && forall j | i <= j < |ts| ::
      if ts[j].status == Running then us[j].status == Invalid else us[j] == ts[j]
  }

  lemma {:induction false} RunningAreHalted<W>(env: Env<W>, t: Tree, i: nat, w: W)
    ensures var us := HaltKids(env, t, true, i, w).t.children;
            Quietened(t.children, us, i) && forall j | 0 <= j < |us| && j < i :: us[j] == t.children[j]
    decreases |t.children| - i
  {
    hide Stop, Skeleton;
    if i >= |t.children| {
    } else if t.children[i].status == Running {
      var r := HaltChild(env, t, i, w);
      assert r.t.children[i].status == Invalid;
      RunningAreHalted(env, r.t, i + 1, r.w);
    } else {
      RunningAreHalted(env, t, i + 1, w);
    }
  }

  lemma {:induction false} LeftOver(ts: seq<Tree>, us: seq<Tree>)
    requires Quietened(ts, us, 0)
    ensures LivingOf(ts, false) == LivingOf(ts, true) + LivingOf(us, false)
    decreases |ts|
  {
    if ts == [] {
    } else {
      LeftOver(ts[1..], us[1..]);
    }
  }

  // ------------------------------------------------------------------- nothing RUNNING is forgotten

  /** In a tidy tree each RUNNING node, at any path, lives in the sense above: a stop of the tree ends it. */
  lemma {:induction false} RunningIsLiving(t: Tree, path: seq<nat>)
    requires Tidy(t) && Reaches(t, path) && At(t, path).status == Running
    ensures At(t, path).id in Living(t)
    decreases |path|
  {
    if path == [] {
    } else {
      AncestorsRun(t, path, 1);
      var c := t.children[path[0]];
      assert path[..1] == [path[0]];
      assert At(t, path[..1]) == c;
      RunningIsLiving(c, path[1..]);
      ChildLives(t.children, path[0], false);
    }
  }

  lemma {:induction false} ChildLives(ts: seq<Tree>, i: nat, onlyRunning: bool)
    requires i < |ts| && Chosen(ts[i], onlyRunning)
    ensures Living(ts[i]) <= LivingOf(ts, onlyRunning)
    decreases i
  {
    if i > 0 {
      ChildLives(ts[1..], i - 1, onlyRunning);
    }
  }
}
