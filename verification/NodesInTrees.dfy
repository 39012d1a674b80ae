/**
 The nodes of a tree in the runs of the tree: what `NodeLives` proves of a node in a run of its own, said of the node at
 any path in terms of the events of the tree, their environments and the worlds they pass through.
 */
module NodesInTrees {
  import opened Wrappers
  import opened BehaviourTrees
  import opened TreeInvariant
  import opened NodeMeaning
  import opened NodeRuns
  import opened NodeLives

  // --------------------------------------------------------- events of a node in events of the tree

  /** Event j of the tree passes through this world. */
  ghost predicate Within<W>(t: Tree, events: seq<Event<W>>, j: nat, w: W)
    requires Fits(Skeleton(t)) && j < |events|
  {
    Later(events[j].env, events[j].w, w) && Later(events[j].env, w, WorldAfter(t, events, j))
  }

  /** The node's k-th event has the environment of event j of the tree, and happens within it. */
  ghost predicate Placed<W>(t: Tree, events: seq<Event<W>>, n: Tree, own: seq<Event<W>>, k: nat, j: nat)
    requires Fits(Skeleton(t)) && Fits(Skeleton(n)) && k < |own| && j < |events|
  {
    && own[k].env == events[j].env && (events[j].HaltBy? ==> own[k].HaltBy?)
    && Within(t, events, j, own[k].w) && Within(t, events, j, OnceWorld(StateAt(n, own, k), own[k]))
  }

  lemma OnceIsLater<W>(t: Tree, e: Event<W>)
    requires Fits(Skeleton(t))
    ensures Later(e.env, e.w, OnceWorld(t, e))
  {
    hide Later, Fits, Skeleton;
    var es := OnceLeads(t, e, |t.children|);
    OnlyLater(e.env, t, e.w, Run(Once(t, e), OnceWorld(t, e)), |t.children|, es);
  }

  lemma {:induction false} PassedAt<W>(env: Env<W>, c: Tree, w: W, es: seq<Event<W>>, c': Tree, w': W, k: nat)
    requires Fits(Skeleton(c)) && Passed(env, c, w, es, c', w') && k < |es|
    ensures es[k].env == env && Later(env, w, es[k].w)
    ensures Later(env, es[k].w, OnceWorld(After(c, es[..k]), es[k]))
    ensures Later(env, OnceWorld(After(c, es[..k]), es[k]), w')
    decreases |es|
  {
    hide Later, Once, OnceWorld, Fits, Skeleton, Tick, Stop;
    var e := es[0];
    var c1, w1 := Once(c, e), OnceWorld(c, e);
    OnceIsLater(c, e);
    if k == 0 {
      assert After(c, es[..0]) == c;
      PassedIsLater(env, c1, w1, es[1..], c', w');
    } else {
      PassedAt(env, c1, w1, es[1..], c', w', k - 1);
      LaterStill(env, w, e.w, w1);
      LaterStill(env, w, w1, es[k].w);
      AfterOne(c, e);
      AfterBoth(c, [e], es[1..][..k - 1]);
      assert [e] + es[1..][..k - 1] == es[..k];
    }
  }

  lemma {:induction false} PassedIsLater<W>(env: Env<W>, c: Tree, w: W, es: seq<Event<W>>, c': Tree, w': W)
    requires Fits(Skeleton(c)) && Passed(env, c, w, es, c', w')
    ensures Later(env, w, w')
    decreases |es|
  {
    hide Later, Once, OnceWorld, Fits, Skeleton;
    if es == [] {
    } else {
      var w1 := OnceWorld(c, es[0]);
      OnceIsLater(c, es[0]);
      PassedIsLater(env, Once(c, es[0]), w1, es[1..], c', w');
      LaterStill(env, w, es[0].w, w1);
      LaterStill(env, w, w1, w');
    }
  }

  lemma SomeHaltsOnly<W>(es: seq<Event<W>>, k: nat)
    requires OnlyHalts(es) && k < |es|
    ensures es[k].HaltBy?
  {
    assert es[k] in es;
  }

  /** Every event of a node is placed in an event of the tree. */
  lemma EventsArePlaced<W>(t: Tree, events: seq<Event<W>>, path: seq<nat>, own: seq<seq<Event<W>>>, k: nat)
    requires Fits(Skeleton(t)) && Reaches(t, path) && OwnRun(t, events, path, own) && k < |Flat(own)|
    ensures Fits(Skeleton(At(t, path))) && Placed(t, events, At(t, path), Flat(own), k, EventOf(own, k))
  {
    hide Passed, Later, Fits, Skeleton, After, OnceWorld, EventOf, Flat, Reaches, NodeAt;
    var j := EventOf(own, k);
    var n, f := At(t, path), Flat(own);
    OwnRunIsRun(t, events, path, own, j);
    InItsSegment(own, k);
    var m := k - From(own, j);
    AfterBoth(n, Flat(own[..j]), own[j][..m]);
    assert Segment(t, events, path, j, own[j]);
    var e := events[j];
    PassedAt(e.env, NodeAt(t, events, path, j), e.w, own[j], NodeAt(t, events, path, j + 1), WorldAfter(t, events, j), m);
    var end := OnceWorld(StateAt(n, f, k), f[k]);
    LaterStill(e.env, f[k].w, end, WorldAfter(t, events, j));
    LaterStill(e.env, e.w, f[k].w, end);
    if e.HaltBy? {
      SomeHaltsOnly(own[j], m);
    }
  }

  /** The states of the tree are states of the node's own run. */
  lemma StatesAgree<W>(t: Tree, events: seq<Event<W>>, path: seq<nat>, own: seq<seq<Event<W>>>, j: nat)
    requires Fits(Skeleton(t)) && Reaches(t, path) && OwnRun(t, events, path, own) && j <= |events|
    ensures Fits(Skeleton(At(t, path))) && From(own, j) <= |Flat(own)|
    ensures NodeAt(t, events, path, j) == StateAt(At(t, path), Flat(own), From(own, j))
  {
    hide Segment, Fits, Skeleton, After, Reaches, NodeAt, Flat;
    OwnRunIsRun(t, events, path, own, j);
    FlatPrefix(own, j);
  }

  lemma InOrder<T>(own: seq<seq<T>>, k: nat, j: nat)
    requires k < |Flat(own)| && j <= |own|
    ensures From(own, j) <= k <==> j <= EventOf(own, k)
  {
    hide Flat, EventOf;
    InItsSegment(own, k);
    var e := EventOf(own, k);
    if j <= e {
      FromGrows(own, j, e);
    } else {
      FromGrows(own, e + 1, j);
    }
  }

  lemma LaterEventsAreLater<T>(own: seq<seq<T>>, i: nat, k: nat)
    requires i <= k < |Flat(own)|
    ensures EventOf(own, i) <= EventOf(own, k)
  {
    hide Flat, EventOf;
    InOrder(own, i, EventOf(own, i));
    InOrder(own, k, EventOf(own, i));
  }

  // ------------------------------------------------------------------- any node, any tree

  /** What a node of the kinds above does in its k-th event, told from its own run alone. */
  ghost predicate Promise<W>(n: Tree, own: seq<Event<W>>, k: nat)
    requires Fits(Skeleton(n)) && AsBuilt(n) && k < |own|
  {
    BuiltIsUnstarted(n);
    UnstartedIsTidy(n);
    PartsFit(n, []);
    var (t, r) := (StateAt(n, own, k), StateAt(n, own, k + 1));
    if own[k].HaltBy? then Quiet(r)
    else if IsGate(n.kind) then GateTick(n, own, k)
    else if n.kind.Timeout? then TimeoutTick(n, own, k)
    else if n.kind.RunOnce? then OnceTick(n, own, k)
    else if n.kind.IfThenElse? then BranchTick(n, own, k)
    else if IsPlain(n.kind) then PlainResult(own[k].env, t, r, WorldAt(n, own, k))
    else true
  }

  /** The child was ticked and its result translated. */
  ghost predicate PlainResult<W>(env: Env<W>, t: Tree, r: Tree, w: W) {
    && Fits(Skeleton(t)) && |t.children| == |r.children| == 1
    && r.children == TickChild(env, t, 0, w).t.children
    && Translates(t.kind, r.children[0].status, r.status)
  }

  lemma PromiseIsKept<W>(n: Tree, own: seq<Event<W>>, k: nat)
    requires Fits(Skeleton(n)) && AsBuilt(n) && k < |own|
    ensures Promise(n, own, k)
  {
    BuiltIsUnstarted(n);
    UnstartedIsTidy(n);
    PartsFit(n, []);
    NextState(n, own, k);
    SameNode(n, own, k);
    hide After, Fits, Skeleton, Tick, Stop, Tidy, GateTick, TimeoutTick, OnceTick, BranchTick, AsBuilt, Unstarted,
         TickChild, Quiet, Translates;
    if own[k].HaltBy? {
      StaysTidy(n, own, k);
      StopHaltsEverything(own[k].env, StateAt(n, own, k), own[k].w);
    } else if IsGate(n.kind) {
      GateOverRuns(n, own, k);
    } else if n.kind.Timeout? {
      TimeoutOverRuns(n, own, k);
    } else if n.kind.RunOnce? {
      RunOnceOverRuns(n, own, k);
    } else if n.kind.IfThenElse? {
      IfThenElseOverRuns(n, own, k);
    } else if IsPlain(n.kind) {
      PlainTick(own[k].env, StateAt(n, own, k), own[k].w);
    }
  }

  /**
   The segments, one after the other, lead the node from each of its states in the tree to the next; every event in them
   is as promised, and is placed in its event of the tree.
   */
  ghost predicate KeepsPromise<W>(t: Tree, events: seq<Event<W>>, path: seq<nat>, own: seq<seq<Event<W>>>)
    requires Fits(Skeleton(t)) && Reaches(t, path)
  {
    var (n, f) := (At(t, path), Flat(own));
    && |own| == |events| && Fits(Skeleton(n)) && AsBuilt(n)
    && (forall j | 0 <= j <= |events| ::
          From(own, j) <= |f| && NodeAt(t, events, path, j) == StateAt(n, f, From(own, j)))
    && forall k: nat | k < |f| :: Promise(n, f, k) && Placed(t, events, n, f, k, EventOf(own, k))
  }

  /**
   In every run of every tree as built, the node at any path goes through a run of its own in which every event is the one
   its kind promises, in the environment and between the worlds of the tree's event it belongs to.
   */
  lemma EveryNodeKeepsItsPromise<W>(t: Tree, events: seq<Event<W>>, path: seq<nat>) returns (own: seq<seq<Event<W>>>)
    requires Fits(Skeleton(t)) && AsBuilt(t) && Reaches(t, path)
    ensures OwnRun(t, events, path, own) && KeepsPromise(t, events, path, own)
  {
    hide OwnRun, Segment, Fits, Skeleton, After, Reaches, NodeAt, Flat, Promise, Placed, EventOf, AsBuilt, StateAt;
    own := EveryNodeRunsByItself(t, events, path);
    LengthOfOwnRun(t, events, path, own);
    SameReach(t, t, path);
    PartsAreAsBuilt(t, path);
    var n := At(t, path);
    forall k: nat | k < |Flat(own)|
      ensures Promise(n, Flat(own), k) && Placed(t, events, n, Flat(own), k, EventOf(own, k))
    {
      PromiseIsKept(n, Flat(own), k);
      EventsArePlaced(t, events, path, own, k);
    }
    forall j | 0 <= j <= |events|
      ensures From(own, j) <= |Flat(own)| && NodeAt(t, events, path, j) == StateAt(n, Flat(own), From(own, j))
    {
      StatesAgree(t, events, path, own, j);
    }
  }

  lemma {:induction false} PartsAreAsBuilt(t: Tree, path: seq<nat>)
    requires AsBuilt(t) && Reaches(t, path)
    ensures AsBuilt(At(t, path))
    decreases |path|
  {
    if path == [] {
    } else {
      PartsAreAsBuilt(t.children[path[0]], path[1..]);
    }
  }

  /** In every reachable state an Inverter, a forcing decorator or a SubTree that has a status translates its child's. */
  lemma ResultsAreMapped<W>(t: Tree, events: seq<Event<W>>, path: seq<nat>)
    requires Fits(Skeleton(t)) && AsBuilt(t) && Reaches(t, path) && IsPlain(At(t, path).kind)
    ensures Reaches(After(t, events), path)
    ensures var x := At(After(t, events), path);
            x.status != Invalid ==> |x.children| == 1 && Translates(x.kind, x.children[0].status, x.status)
  {
    hide Fits, Skeleton, Tick, TickChild, Stop, Translates, Tidy, AsBuilt, After, Segment, Flat;
    var own := EveryNodeRunsByItself(t, events, path);
    PartsAreAsBuilt(t, path);
    OwnRunIsRun(t, events, path, own, |events|);
    assert own[..|events|] == own && events[..|events|] == events;
    SameReach(t, After(t, events), path);
    LastResultIsMapped(At(t, path), Flat(own));
  }

  lemma LastResultIsMapped<W>(n: Tree, own: seq<Event<W>>)
    requires Fits(Skeleton(n)) && AsBuilt(n) && IsPlain(n.kind)
    ensures var x := After(n, own);
            x.status != Invalid ==> |x.children| == 1 && Translates(x.kind, x.children[0].status, x.status)
  {
    var m := |own|;
    assert own[..m] == own;
    PartsFit(n, []);
    hide Fits, Skeleton, Tick, TickChild, Stop, Translates, After;
    if m == 0 {
      AfterNothing(n, own);
    } else {
      NextState(n, own, m - 1);
      SameNode(n, own, m - 1);
      if own[m - 1].TickBy? {
        PlainTick(own[m - 1].env, StateAt(n, own, m - 1), own[m - 1].w);
      } else {
        assert Once(StateAt(n, own, m - 1), own[m - 1]).status == Invalid;
      }
    }
  }

  // --------------------------------------------------------------------- worlds of a tick

  /** The tick of a RUNNING Timeout ticks its child first. */
  lemma TimeoutWorlds<W>(env: Env<W>, t: Tree, w: W)
    requires Fits(Skeleton(t)) && t.kind.Timeout? && t.status == Running && |t.children| == 1
    ensures Later(env, w, TickChild(env, t, 0, w).w) && Later(env, TickChild(env, t, 0, w).w, Tick(env, t, w).w)
  {
    hide Later, Leads, Fits, Skeleton, Tick, TickChild, RestartChild, Finish;
    var c := TickChild(env, t, 0, w);
    var es := TickChildLeads(env, t, 0, w, 1);
    OnlyLater(env, t, w, c, 1, es);
    TickOfADecorator(env, t, w);
    var d := DoStep(env, t, MAX_SYNC_ITERATIONS, w);
    NotLater(env, c.w);
    if d.w != c.w {
      es := RestartLeads(env, c.t, c.w, 1);
      OnlyLater(env, c.t, c.w, RestartChild(env, c.t, c.w), 1, es);
    }
    var r := Finish(env, d.t, d.verdict.status, d.w);
    es := FinishLeads(env, d.t, d.verdict.status, d.w, |d.t.children|);
    OnlyLater(env, d.t, d.w, r, |d.t.children|, es);
    LaterStill(env, c.w, d.w, r.w);
  }

  /** A tick of a gate or a Timeout passes through the world in which it reads its ports and its clock. */
  lemma BeginIsWithin<W>(n: Tree, own: seq<Event<W>>, k: nat)
    requires Lives(n, own) && k < |own| && own[k].TickBy? && Readable(n, own, StartOf(n, own, k))
    ensures Later(own[k].env, own[k].w, WorldAt(n, own, k))
    ensures Later(own[k].env, WorldAt(n, own, k), OnceWorld(StateAt(n, own, k), own[k]))
  {
    hide After, Fits, Skeleton, Tick, TickChild, Readable, Later, Leads;
    var t, e := StateAt(n, own, k), own[k];
    BeginIsLater(e.env, t, e.w);
    if StartOf(n, own, k) < k {
      ActivationIsRemembered(n, own, k);
    }
    TickOfActivation(n, own, k);
    var u, w := ActiveAt(n, own, k), WorldAt(n, own, k);
    var es := TickLeads(e.env, u, w, |u.children|);
    OnlyLater(e.env, u, w, Tick(e.env, u, w), |u.children|, es);
  }

  /** And if it is placed, so is that world. */
  lemma BeginIsPlaced<W>(t: Tree, events: seq<Event<W>>, n: Tree, own: seq<Event<W>>, k: nat, j: nat)
    requires Lives(n, own) && k < |own| && own[k].TickBy? && Readable(n, own, StartOf(n, own, k))
    requires Fits(Skeleton(t)) && j < |events| && Placed(t, events, n, own, k, j)
    ensures events[j].TickBy? && own[k].env == events[j].env && Within(t, events, j, WorldAt(n, own, k))
  {
    hide Fits, Skeleton, After, Readable, Later, OnceWorld, StartOf, StateAt, WorldAt, WorldAfter;
    BeginIsWithin(n, own, k);
    var env, w := events[j].env, WorldAt(n, own, k);
    LaterStill(env, events[j].w, own[k].w, w);
    LaterStill(env, w, OnceWorld(StateAt(n, own, k), own[k]), WorldAfter(t, events, j));
  }

  // ------------------------------------------------------------------------ clocks

  /** Nothing that nodes do turns the clock back. */
  ghost predicate Forward<W(!new)>(env: Env<W>) {
    forall w: W, m: Move :: env.now(w) <= env.now(MovedBy(env, w, m))
  }

  lemma {:induction false} MovesTakeTime<W(!new)>(env: Env<W>, w: W, moves: seq<Move>)
    requires Forward(env)
    ensures env.now(w) <= env.now(Moved(env, w, moves))
    decreases |moves|
  {
    if moves == [] {
    } else {
      MovesTakeTime(env, MovedBy(env, w, moves[0]), moves[1..]);
    }
  }

  lemma LaterByTheClock<W(!new)>(env: Env<W>, a: W, b: W)
    requires Forward(env) && Later(env, a, b)
    ensures env.now(a) <= env.now(b)
  {
    var moves :| Moved(env, a, moves) == b;
    MovesTakeTime(env, a, moves);
  }

  // ---------------------------------------------------------- gates and timeouts at a path

  /**
   A RUNNING gate or Timeout at any path: in which events of the tree its activation began and it was last ticked, in
   which worlds within these, and that nothing has happened to it since.
   */
  ghost predicate LastTicked<W>(t: Tree, events: seq<Event<W>>, path: seq<nat>, s: nat, k: nat, ws: W, wk: W)
    requires Fits(Skeleton(t)) && Reaches(t, path)
  {
    && s <= k < |events| && events[s].TickBy? && events[k].TickBy?
    && Within(t, events, s, ws) && Within(t, events, k, wk)
    && (forall j | s < j <= |events| :: NodeAt(t, events, path, j).status == Running)
    && (forall j | k < j <= |events| :: NodeAt(t, events, path, j) == NodeAt(t, events, path, |events|))
  }

  ghost predicate RunsAtLast<W>(t: Tree, events: seq<Event<W>>, path: seq<nat>) {
    && Fits(Skeleton(t)) && AsBuilt(t) && Reaches(t, path)
    && NodeAt(t, events, path, |events|).status == Running
  }

  /** A node that is RUNNING at last, in an activation that began at s. */
  ghost predicate BusySince<W>(n: Tree, own: seq<Event<W>>, s: nat) {
    && Lives(n, own) && own != [] && own[|own| - 1].TickBy? && StateAt(n, own, |own|).status == Running
    && s < |own| && s == StartOf(n, own, |own|) == StartOf(n, own, |own| - 1) == StartOf(n, own, s)
    && own[s].TickBy? && Readable(n, own, s)
  }

  lemma RunsSinceItsStart<W>(n: Tree, own: seq<Event<W>>)
    requires Lives(n, own) && StateAt(n, own, |own|).status == Running
    ensures BusySince(n, own, StartOf(n, own, |own|))
  {
    hide Fits, Skeleton, After, Readable, Tick;
    var m := |own|;
    AfterNothing(n, own);
    NextState(n, own, m - 1);
    ActivationIsRemembered(n, own, m);
  }

  lemma PartIsBuilt(t: Tree, path: seq<nat>)
    requires Fits(Skeleton(t)) && AsBuilt(t) && Reaches(t, path)
    ensures var n := At(t, path);
            Fits(Skeleton(n)) && AsBuilt(n) && n.status == Invalid && Unstarted(n) && ArityOk(n.kind, |n.children|)
  {
    SameReach(t, t, path);
    PartsAreAsBuilt(t, path);
    PartsFit(At(t, path), []);
    BuiltIsUnstarted(At(t, path));
  }

  /**
   Such a node of a tree: s0 is where its activation began in its own run, s and k are the events of the tree in which it
   began and was last ticked.
   */
  lemma RunsSince<W>(t: Tree, events: seq<Event<W>>, path: seq<nat>, own: seq<seq<Event<W>>>, n: Tree,
                     f: seq<Event<W>>) returns (s0: nat, s: nat, k: nat)
    requires RunsAtLast(t, events, path) && OwnRun(t, events, path, own)
    requires n == At(t, path) && f == Flat(own) && IsTimed(n.kind)
    ensures BusySince(n, f, s0) && AsBuilt(n) && StateAt(n, f, |f|) == NodeAt(t, events, path, |events|)
    ensures s < |events| && k < |events| && f[s0].env == events[s].env && Placed(t, events, n, f, |f| - 1, k)
    ensures LastTicked(t, events, path, s, k, WorldAt(n, f, s0), WorldAt(n, f, |f| - 1))
  {
    hide Fits, Skeleton, Reaches, After, Flat, EventOf, Readable, Within, NodeAt, Tick, OwnRun, StateAt, WorldAt, At,
         OnceWorld, StartOf, AsBuilt, From, Placed, Later;
    PartIsBuilt(t, path);
    LengthOfOwnRun(t, events, path, own);
    StatesAgree(t, events, path, own, |events|);
    AllOfIt(own);
    RunsSinceItsStart(n, f);
    var last := |f| - 1;
    s0 := StartOf(n, f, |f|);
    s, k := EventOf(own, s0), EventOf(own, last);
    TickIsPlaced(t, events, path, own, n, f, s0);
    TickIsPlaced(t, events, path, own, n, f, last);
    LaterEventsAreLater(own, s0, last);
    RunsInBetween(t, events, path, own, n, f, s0);
  }

  lemma TickIsPlaced<W>(t: Tree, events: seq<Event<W>>, path: seq<nat>, own: seq<seq<Event<W>>>, n: Tree,
                        f: seq<Event<W>>, k: nat)
    requires Fits(Skeleton(t)) && Reaches(t, path) && OwnRun(t, events, path, own) && |own| == |events|
    requires n == At(t, path) && f == Flat(own) && Lives(n, f)
    requires k < |f| && f[k].TickBy? && Readable(n, f, StartOf(n, f, k))
    ensures var j := EventOf(own, k);
            && Placed(t, events, n, f, k, j) && f[k].env == events[j].env && events[j].TickBy?
            && Within(t, events, j, WorldAt(n, f, k))
  {
    hide Fits, Skeleton, Reaches, After, Flat, EventOf, Readable, Within, OwnRun, StateAt, WorldAt, At, OnceWorld, StartOf;
    EventsArePlaced(t, events, path, own, k);
    BeginIsPlaced(t, events, n, f, k, EventOf(own, k));
  }

  lemma RunsInBetween<W>(t: Tree, events: seq<Event<W>>, path: seq<nat>, own: seq<seq<Event<W>>>, n: Tree,
                         f: seq<Event<W>>, s: nat)
    requires Fits(Skeleton(t)) && Reaches(t, path) && OwnRun(t, events, path, own)
    requires n == At(t, path) && f == Flat(own) && BusySince(n, f, s)
    ensures forall j | EventOf(own, s) < j <= |events| :: NodeAt(t, events, path, j).status == Running
    ensures forall j | EventOf(own, |f| - 1) < j <= |events| ::
              NodeAt(t, events, path, j) == NodeAt(t, events, path, |events|)
  {
    LengthOfOwnRun(t, events, path, own);
    hide Fits, Skeleton, Reaches, After, Flat, EventOf, NodeAt, StateAt, OwnRun, At, BusySince, From;
    StatesAgree(t, events, path, own, |events|);
    AllOfIt(own);
    forall j | 0 <= j <= |events|
      ensures j > EventOf(own, s) ==> NodeAt(t, events, path, j).status == Running
      ensures j > EventOf(own, |f| - 1) ==> NodeAt(t, events, path, j) == NodeAt(t, events, path, |events|)
    {
      StatesAgree(t, events, path, own, j);
      RunsFrom(n, own, f, s, j);
    }
  }

  lemma AllOfIt<T>(own: seq<seq<T>>)
    ensures From(own, |own|) == |Flat(own)|
  {
    assert own[..|own|] == own;
  }

  lemma RunsFrom<W>(n: Tree, own: seq<seq<Event<W>>>, f: seq<Event<W>>, s: nat, j: nat)
    requires f == Flat(own) && BusySince(n, f, s) && j <= |own| && From(own, j) <= |f|
    ensures j > EventOf(own, s) ==> StateAt(n, f, From(own, j)).status == Running
    ensures j > EventOf(own, |f| - 1) ==> From(own, j) == |f|
  {
    hide Fits, Skeleton, After, Flat, EventOf, StateAt, From;
    InOrder(own, s, j);
    InOrder(own, |f| - 1, j);
  }

  /**
   A Timeout that is RUNNING, anywhere in any tree, was last ticked in time: by the clock of the tree's event that ticked
   it, at the end of its child's tick, its port's time since the beginning of the activation was not over.
   */
  lemma RunningTimeoutAnywhere<W(!new)>(t: Tree, events: seq<Event<W>>, path: seq<nat>)
    returns (s: nat, k: nat, ws: W, wk: W)
    requires RunsAtLast(t, events, path) && At(t, path).kind.Timeout?
    ensures LastTicked(t, events, path, s, k, ws, wk)
    ensures var ms := events[s].env.number(At(t, path).id, ws);
            && ms.Some? && events[k].env.now(wk) < events[s].env.now(ws) + Max(ms.value, 0)
            && (Forward(events[s].env) && Forward(events[k].env) ==>
                  events[k].env.now(events[k].w) < events[s].env.now(WorldAfter(t, events, s)) + Max(ms.value, 0))
  {
    hide Fits, Skeleton, Reaches, After, Flat, EventOf, NodeAt, Tick, TickChild, OwnRun, Later, Forward, AsBuilt;
    var own := EveryNodeRunsByItself(t, events, path);
    var n, f := At(t, path), Flat(own);
    var s0;
    s0, s, k := RunsSince(t, events, path, own, n, f);
    var m := |f|;
    ws := WorldAt(n, f, s0);
    BuiltIsUnstarted(n);
    UnstartedIsTidy(n);
    RunningTimeoutIsInTime(n, f, m);
    if StartOf(n, f, m - 1) < m - 1 {
      ActivationIsRemembered(n, f, m - 1);
    }
    TickOfActivation(n, f, m - 1);
    var e := events[k];
    var begin := WorldAt(n, f, m - 1);
    var u := ActiveAt(n, f, m - 1);
    wk := TickChild(e.env, StateAt(n, f, m - 1), 0, begin).w;
    TimeoutWorlds(e.env, u, begin);
    assert f[m - 1].env == e.env;
    assert OnceWorld(StateAt(n, f, m - 1), f[m - 1]) == Tick(e.env, u, begin).w;
    LaterStill(e.env, e.w, begin, wk);
    LaterStill(e.env, wk, OnceWorld(StateAt(n, f, m - 1), f[m - 1]), WorldAfter(t, events, k));
    if Forward(events[s].env) && Forward(e.env) {
      LaterByTheClock(e.env, e.w, wk);
      LaterByTheClock(events[s].env, ws, WorldAfter(t, events, s));
    }
  }

  /** What a RUNNING gate is still waiting for, given the worlds in which it began and was last ticked. */
  ghost predicate Waits<W>(kind: Kind, id: nat, first: Env<W>, ws: W, last: Env<W>, wk: W) {
    match kind
    case Delay => first.number(id, ws).Some? && last.now(wk) < first.now(ws) + Max(first.number(id, ws).value, 0)
    case WaitValueUpdate => last.version(id, wk) == first.version(id, ws)
    case Precondition => first.allowed(id, ws) == Some(false) && first.otherwise(id, ws) == Some(Running)
    case _ => false
  }

  /**
   A gate that is RUNNING, anywhere in any tree, has let its child run, or is still waiting: a Delay for its port's time
   since the beginning of its activation, a WaitValueUpdate for another version than it saw then.
   */
  lemma RunningGateAnywhere<W>(t: Tree, events: seq<Event<W>>, path: seq<nat>)
    returns (s: nat, k: nat, ws: W, wk: W)
    requires RunsAtLast(t, events, path) && IsGate(At(t, path).kind)
    ensures LastTicked(t, events, path, s, k, ws, wk)
    ensures var n := NodeAt(t, events, path, |events|);
            && |n.children| == 1
            && (n.children[0].status == Running || Waits(n.kind, n.id, events[s].env, ws, events[k].env, wk))
  {
    hide Fits, Skeleton, Reaches, After, Flat, EventOf, NodeAt, Tick, TickChild, OwnRun, Later, Within, AsBuilt, At;
    var own := EveryNodeRunsByItself(t, events, path);
    var n, f := At(t, path), Flat(own);
    var s0;
    s0, s, k := RunsSince(t, events, path, own, n, f);
    ws, wk := WorldAt(n, f, s0), WorldAt(n, f, |f| - 1);
    WaitsOrRuns(n, f, s0);
    SameNode(n, f, |f|);
  }

  lemma WaitsOrRuns<W>(n: Tree, own: seq<Event<W>>, s: nat)
    requires BusySince(n, own, s) && IsGate(n.kind)
    ensures var x := StateAt(n, own, |own|);
            var k := |own| - 1;
            && |x.children| == 1
            && (x.children[0].status == Running
                || Waits(n.kind, n.id, own[s].env, WorldAt(n, own, s), own[k].env, WorldAt(n, own, k)))
  {
    hide Fits, Skeleton, After, TickChild;
    var k := |own| - 1;
    GateOverRuns(n, own, k);
    SameNode(n, own, |own|);
    if OpenAt(n, own, s, k) {
      assert StateAt(n, own, |own|).children[0].status == Running;
    } else {
      assert Answer(n, own, s) == Running;
      if n.kind.WaitValueUpdate? {
        assert VersionAt(n, own, k) == VersionAt(n, own, s);
      }
    }
  }

  // ------------------------------------------------------------- children that are not ticked

  /** A halt of the node does no more than halt its child. */
  lemma HaltHaltsChild<W>(t: Tree, e: Event<W>) returns (hs: seq<Event<W>>)
    requires Fits(Skeleton(t)) && e.HaltBy? && |t.children| == 1
    ensures OnlyHalts(hs) && Fits(Skeleton(t.children[0])) && |Once(t, e).children| == 1
    ensures Once(t, e).children[0] == After(t.children[0], hs)
  {
    hs := OnceLeads(t, e, 0);
    var r := Run(Once(t, e), OnceWorld(t, e));
    hide Fits, Skeleton, Passed, Once, OnceWorld;
    PassedIsRun(e.env, t.children[0], e.w, hs, r.t.children[0], r.w);
  }

  ghost predicate Untouched<W>(n: Tree, own: seq<Event<W>>, k: nat)
    requires Fits(Skeleton(n)) && k < |own|
  {
    own[k].TickBy? ==> StateAt(n, own, k + 1).children == StateAt(n, own, k).children
  }

  /** Between a and b the child of the node is halted at most. */
  ghost predicate OnlyHalted<W>(n: Tree, own: seq<Event<W>>, a: nat, b: nat, hs: seq<Event<W>>)
    requires Fits(Skeleton(n)) && a <= b <= |own| && |n.children| == 1
  {
    SameNode(n, own, a);
    SameNode(n, own, b);
    var c := StateAt(n, own, a).children[0];
    OnlyHalts(hs) && Fits(Skeleton(c)) && StateAt(n, own, b).children[0] == After(c, hs)
  }

  lemma {:induction false} UntouchedIsOnlyHalted<W>(n: Tree, own: seq<Event<W>>, a: nat, b: nat)
    returns (hs: seq<Event<W>>)
    requires Fits(Skeleton(n)) && a <= b <= |own| && |n.children| == 1
    requires forall k | a <= k < b :: Untouched(n, own, k)
    ensures OnlyHalted(n, own, a, b, hs)
    decreases b - a
  {
    SameNode(n, own, a);
    var c := StateAt(n, own, a).children[0];
    assert Skeleton(StateAt(n, own, a)).children[0] == Skeleton(c);
    hide Fits, Skeleton, Tick, Stop, StateAt;
    if a == b {
      hs := [];
    } else {
      hs := UntouchedIsOnlyHalted(n, own, a, b - 1);
      SameNode(n, own, b - 1);
      SameNode(n, own, b);
      NextState(n, own, b - 1);
      assert Untouched(n, own, b - 1);
      if own[b - 1].HaltBy? {
        var more := HaltHaltsChild(StateAt(n, own, b - 1), own[b - 1]);
        AfterBoth(c, hs, more);
        hs := hs + more;
      }
    }
  }

  /** The same at a path of a tree: between the tree's states a and b, the child of the node is halted at most. */
  ghost predicate HaltedAtMost<W>(t: Tree, events: seq<Event<W>>, path: seq<nat>, a: nat, b: nat, hs: seq<Event<W>>)
    requires Fits(Skeleton(t)) && Reaches(t, path) && a <= b <= |events|
  {
    var (x, y) := (NodeAt(t, events, path, a), NodeAt(t, events, path, b));
    && |x.children| == |y.children| == 1 && Fits(Skeleton(x.children[0]))
    && OnlyHalts(hs) && y.children[0] == After(x.children[0], hs)
  }

  // ------------------------------------------------------------------------- RunOnce at a path

  /**
   Once a RunOnce has ended, anywhere in any tree, it never runs again, whatever happens to the tree: in every later
   state nothing of it is RUNNING, it has no status, its first result or SUCCESS, and its child was halted at most.
   */
  lemma RunOnceEndsOnceAnywhere<W>(t: Tree, events: seq<Event<W>>, path: seq<nat>, i: nat, j: nat)
    returns (hs: seq<Event<W>>)
    requires Fits(Skeleton(t)) && AsBuilt(t) && Reaches(t, path) && i <= j <= |events| && At(t, path).kind.RunOnce?
    requires NodeAt(t, events, path, i).status == Success || NodeAt(t, events, path, i).status == Failure
    ensures var (x, y) := (NodeAt(t, events, path, i), NodeAt(t, events, path, j));
            && x.mem.result.Some? && y.mem.result == x.mem.result
            && Quiet(y) && (y.status == Invalid || y.status == Success || y.status == x.mem.result.value)
    ensures HaltedAtMost(t, events, path, i, j, hs)
  {
    PartIsBuilt(t, path);
    hide Fits, Skeleton, Reaches, After, Flat, NodeAt, OwnRun, At, AsBuilt, Unstarted, StateAt, Quiet;
    var own := EveryNodeRunsByItself(t, events, path);
    var n, f := At(t, path), Flat(own);
    assert |own| == |events| by { LengthOfOwnRun(t, events, path, own); }
    StatesAgree(t, events, path, own, i);
    StatesAgree(t, events, path, own, j);
    FromGrows(own, i, j);
    hs := RunOnceStaysEnded(n, f, From(own, i), From(own, j));
    SameNode(n, f, From(own, i));
    SameNode(n, f, From(own, j));
  }

  lemma LengthOfOwnRun<W>(t: Tree, events: seq<Event<W>>, path: seq<nat>, own: seq<seq<Event<W>>>)
    requires Fits(Skeleton(t)) && Reaches(t, path) && OwnRun(t, events, path, own)
    ensures |own| == |events|
  {
  }

  lemma RunOnceStaysEnded<W>(n: Tree, own: seq<Event<W>>, a: nat, b: nat) returns (hs: seq<Event<W>>)
    requires LivesOnce(n, own) && Unstarted(n) && a <= b <= |own|
    requires StateAt(n, own, a).status == Success || StateAt(n, own, a).status == Failure
    ensures var (x, y) := (StateAt(n, own, a), StateAt(n, own, b));
            && x.mem.result.Some? && y.mem.result == x.mem.result
            && Quiet(y) && (y.status == Invalid || y.status == Success || y.status == x.mem.result.value)
    ensures OnlyHalted(n, own, a, b, hs)
  {
    assert n.status == Invalid;
    hide Fits, Skeleton, StateAt, FirstEnd, Tidy, Unstarted, Quiet, Untouched, OnlyHalted, After, Tick, Stop;
    EndedAt(n, own, a);
    StaysQuiet(n, own, a, b);
    FirstEndIsRemembered(n, own, a);
    FirstEndIsRemembered(n, own, b);
    FirstEndStays(n, own, a, b);
    forall k | a <= k < b
      ensures Untouched(n, own, k)
    {
      RepeatsItself(n, own, a, k);
    }
    hs := UntouchedIsOnlyHalted(n, own, a, b);
    assert FirstEnd(n, own, a) == StateAt(n, own, a).mem.result;
    if a < b {
      RepeatsItself(n, own, a, b - 1);
    }
  }

  lemma StaysQuiet<W>(n: Tree, own: seq<Event<W>>, a: nat, b: nat)
    requires LivesOnce(n, own) && Unstarted(n) && a <= b <= |own| && FirstEnd(n, own, a).Some?
    ensures Quiet(StateAt(n, own, b))
  {
    UnstartedIsTidy(n);
    StaysTidy(n, own, b);
    FirstEndStays(n, own, a, b);
    FirstEndIsRemembered(n, own, b);
    hide Fits, Skeleton, StateAt, FirstEnd;
    TidyIsQuiet(StateAt(n, own, b));
  }

  lemma EndedAt<W>(n: Tree, own: seq<Event<W>>, a: nat)
    requires LivesOnce(n, own) && n.status == Invalid && a <= |own|
    requires StateAt(n, own, a).status == Success || StateAt(n, own, a).status == Failure
    ensures FirstEnd(n, own, a).Some?
    ensures StateAt(n, own, a).status == Success || StateAt(n, own, a).status == FirstEnd(n, own, a).value
  {
    hide Fits, Skeleton, Tick, Stop, StateAt, FirstEnd, Once, After;
    AfterNothing(n, own);
    NextState(n, own, a - 1);
    HaltEndsNothing(StateAt(n, own, a - 1), own[a - 1]);
    EndedWithItsResult(n, own, a - 1);
  }

  lemma HaltEndsNothing<W>(t: Tree, e: Event<W>)
    requires Fits(Skeleton(t))
    ensures e.HaltBy? ==> Once(t, e).status == Invalid
  {
  }

  /** An ended RunOnce, after its next event. */
  lemma RepeatsItself<W>(n: Tree, own: seq<Event<W>>, a: nat, k: nat)
    requires LivesOnce(n, own) && a <= k < |own| && FirstEnd(n, own, a).Some?
    ensures Untouched(n, own, k)
    ensures var s := StateAt(n, own, k + 1).status;
            s == Invalid || s == Success || s == FirstEnd(n, own, a).value
  {
    FirstEndStays(n, own, a, k);
    NextState(n, own, k);
    if own[k].TickBy? {
      RunOnceOverRuns(n, own, k);
      hide Fits, Skeleton, Tick, Stop, StateAt, FirstEnd;
    } else {
      hide Fits, Skeleton, Tick, StateAt, FirstEnd;
      HaltEndsNothing(StateAt(n, own, k), own[k]);
    }
  }

  lemma EndedWithItsResult<W>(n: Tree, own: seq<Event<W>>, k: nat)
    requires LivesOnce(n, own) && k < |own| && own[k].TickBy? && StateAt(n, own, k + 1).status != Running
    ensures var r := StateAt(n, own, k + 1);
            FirstEnd(n, own, k + 1).Some? && (r.status == Success || r.status == FirstEnd(n, own, k + 1).value)
  {
    RunOnceOverRuns(n, own, k);
    EndedOnce(n, own, k);
    SameNode(n, own, k + 1);
    hide Fits, Skeleton, Tick, Stop, StateAt;
  }

  // -------------------------------------------------------------------- shut gates at a path

  /**
   No tick within event i of the tree can find the gate open: the clock, which was at `from` at first, has not gone on by
   x and the port asks for x at least; or the condition is false; or the version is x.
   */
  ghost predicate Shut<W(!new)>(t: Tree, events: seq<Event<W>>, kind: Kind, id: nat, i: nat, from: int, x: int)
    requires Fits(Skeleton(t)) && i < |events| && IsGate(kind)
  {
    var env := events[i].env;
    match kind
    case Delay =>
      && Forward(env) && from <= env.now(events[i].w) && env.now(WorldAfter(t, events, i)) < from + x
      && forall w: W | Within(t, events, i, w) :: env.number(id, w).Some? ==> x <= env.number(id, w).value
    case Precondition => forall w: W | Within(t, events, i, w) :: env.allowed(id, w) != Some(true)
    case SkipUnlessUpdated | WaitValueUpdate => forall w: W | Within(t, events, i, w) :: env.version(id, w) == x
  }

  /** The events of the tree from s up to j shut the gate at this path, which is not RUNNING before them. */
  ghost predicate ShutFrom<W(!new)>(t: Tree, events: seq<Event<W>>, path: seq<nat>, s: nat, j: nat, from: int, x: int)
    requires Fits(Skeleton(t)) && Reaches(t, path) && s <= j <= |events|
  {
    var n := At(t, path);
    && IsGate(n.kind) && NodeAt(t, events, path, s).status != Running
    && (n.kind.SkipUnlessUpdated? ==> NodeAt(t, events, path, s).mem.version == x)
    && forall i | s <= i < j :: Shut(t, events, n.kind, n.id, i, from, x)
  }

  /**
   A shut gate anywhere in any tree does not let its child be ticked: not before a Delay's time has passed since a moment
   at which it was not RUNNING, by the clock of the tree's events; not while a Precondition is false; not while a
   SkipUnlessUpdated or a WaitValueUpdate meets no other version. Halts of whatever is above may still halt the child.
   */
  lemma ShutGateAnywhere<W(!new)>(t: Tree, events: seq<Event<W>>, path: seq<nat>, s: nat, j: nat, from: int, x: int)
    returns (hs: seq<Event<W>>)
    requires Fits(Skeleton(t)) && AsBuilt(t) && Reaches(t, path) && s <= j <= |events|
    requires ShutFrom(t, events, path, s, j, from, x)
    ensures HaltedAtMost(t, events, path, s, j, hs)
  {
    PartIsBuilt(t, path);
    hide Fits, Skeleton, Reaches, After, Flat, NodeAt, OwnRun, At, StateAt, Shut, Untouched;
    var own := EveryNodeRunsByItself(t, events, path);
    var n, f := At(t, path), Flat(own);
    assert |own| == |events| by { LengthOfOwnRun(t, events, path, own); }
    StatesAgree(t, events, path, own, s);
    StatesAgree(t, events, path, own, j);
    FromGrows(own, s, j);
    var a, b := From(own, s), From(own, j);
    forall k | a <= k < b
      ensures Untouched(n, f, k)
    {
      ShutTick(t, events, path, own, n, f, s, j, from, x, k);
    }
    hs := UntouchedIsOnlyHalted(n, f, a, b);
    SameNode(n, f, a);
    SameNode(n, f, b);
  }

  /** What is known of a gate's own run between the tree's events s and j. */
  ghost predicate ShutOwn<W(!new)>(t: Tree, events: seq<Event<W>>, path: seq<nat>, own: seq<seq<Event<W>>>, n: Tree,
                                   f: seq<Event<W>>, s: nat, j: nat, from: int, x: int)
  {
    && Fits(Skeleton(t)) && AsBuilt(t) && Reaches(t, path) && s <= j <= |events| == |own|
    && ShutFrom(t, events, path, s, j, from, x) && OwnRun(t, events, path, own)
    && n == At(t, path) && f == Flat(own) && Lives(n, f)
    && From(own, s) <= |f| && NodeAt(t, events, path, s) == StateAt(n, f, From(own, s))
  }

  lemma ShutTick<W(!new)>(t: Tree, events: seq<Event<W>>, path: seq<nat>, own: seq<seq<Event<W>>>, n: Tree,
                          f: seq<Event<W>>, s: nat, j: nat, from: int, x: int, k: nat)
    requires ShutOwn(t, events, path, own, n, f, s, j, from, x) && From(own, s) <= k < From(own, j) && k < |f|
    ensures Untouched(n, f, k)
  {
    hide Fits, Skeleton, Reaches, After, Flat, NodeAt, OwnRun, At, StateAt, Readable, OpenAt, ShutOwn;
    GateLives(t, events, path, own, n, f, s, j, from, x);
    if f[k].TickBy? {
      GateOverRuns(n, f, k);
      var s0 := StartOf(n, f, k);
      if Readable(n, f, s0) {
        ShutIsNotOpen(t, events, path, own, n, f, s, j, from, x, k);
      }
    }
  }

  lemma GateLives<W(!new)>(t: Tree, events: seq<Event<W>>, path: seq<nat>, own: seq<seq<Event<W>>>, n: Tree,
                           f: seq<Event<W>>, s: nat, j: nat, from: int, x: int)
    requires ShutOwn(t, events, path, own, n, f, s, j, from, x)
    ensures Lives(n, f) && IsGate(n.kind) && s <= j <= |own| && Fits(Skeleton(t)) && |own| == |events| && f == Flat(own)
  {
  }

  /** A tick between s and j reads its ports within its event, which shuts the gate, and so did the one that began. */
  lemma ReadsShut<W(!new)>(t: Tree, events: seq<Event<W>>, path: seq<nat>, own: seq<seq<Event<W>>>, n: Tree,
                           f: seq<Event<W>>, s: nat, j: nat, from: int, x: int, k: nat) returns (i: nat)
    requires ShutOwn(t, events, path, own, n, f, s, j, from, x) && From(own, s) <= k < From(own, j) && k < |f|
    requires Lives(n, f) && f[k].TickBy? && Readable(n, f, StartOf(n, f, k))
    ensures From(own, s) <= StartOf(n, f, k)
    ensures i < |events| && Fits(Skeleton(t)) && f[k].env == events[i].env && Within(t, events, i, WorldAt(n, f, k))
    ensures IsGate(n.kind) && Shut(t, events, n.kind, n.id, i, from, x)
  {
    hide Fits, Skeleton, Reaches, After, Flat, NodeAt, OwnRun, At, StateAt, Readable, Shut, EventOf, Within;
    i := EventOf(own, k);
    TickIsPlaced(t, events, path, own, n, f, k);
    InOrder(own, k, s);
    InOrder(own, k, j);
  }

  lemma ShutIsNotOpen<W(!new)>(t: Tree, events: seq<Event<W>>, path: seq<nat>, own: seq<seq<Event<W>>>, n: Tree,
                               f: seq<Event<W>>, s: nat, j: nat, from: int, x: int, k: nat)
    requires ShutOwn(t, events, path, own, n, f, s, j, from, x) && From(own, s) <= k < From(own, j) && k < |f|
    requires Lives(n, f) && IsGate(n.kind) && f[k].TickBy? && Readable(n, f, StartOf(n, f, k))
    ensures !OpenAt(n, f, StartOf(n, f, k), k)
  {
    var s0 := StartOf(n, f, k);
    hide Fits, Skeleton, Reaches, After, Flat, NodeAt, OwnRun, At, StateAt, ShutOwn, Forward, Within, WorldAfter;
    var i := ReadsShut(t, events, path, own, n, f, s, j, from, x, k);
    StartTicks(n, f, k);
    var i0 := ReadsShut(t, events, path, own, n, f, s, j, from, x, s0);
    match n.kind
    case Delay => TimeWithin(t, events, i, WorldAt(n, f, k)); TimeWithin(t, events, i0, WorldAt(n, f, s0));
    case Precondition =>
    case SkipUnlessUpdated => SeenBefore(t, events, path, own, n, f, s, j, from, x, s0);
    case WaitValueUpdate =>
      forall l | s0 < l < k + 1
        ensures VersionAt(n, f, l) == VersionAt(n, f, s0)
      {
        StartTicks(n, f, k);
        var il := ReadsShut(t, events, path, own, n, f, s, j, from, x, l);
      }
  }

  /** The tick that began an activation, and those in it, are ticks of the same activation. */
  lemma StartTicks<W>(n: Tree, own: seq<Event<W>>, k: nat)
    requires Lives(n, own) && k < |own| && own[k].TickBy?
    ensures forall l | StartOf(n, own, k) <= l <= k :: own[l].TickBy? && StartOf(n, own, l) == StartOf(n, own, k)
  {
    hide Fits, Skeleton, After, StateAt, Tick;
    var s := StartOf(n, own, k);
    forall l | s <= l <= k
      ensures own[l].TickBy? && StartOf(n, own, l) == s
    {
      NextState(n, own, l);
    }
  }

  lemma TimeWithin<W(!new)>(t: Tree, events: seq<Event<W>>, i: nat, w: W)
    requires Fits(Skeleton(t)) && i < |events| && Within(t, events, i, w) && Forward(events[i].env)
    ensures var env := events[i].env; env.now(events[i].w) <= env.now(w) <= env.now(WorldAfter(t, events, i))
  {
    hide Fits, Skeleton, Forward, Later;
    LaterByTheClock(events[i].env, events[i].w, w);
    LaterByTheClock(events[i].env, w, WorldAfter(t, events, i));
  }

  lemma {:induction false} SeenBefore<W(!new)>(t: Tree, events: seq<Event<W>>, path: seq<nat>, own: seq<seq<Event<W>>>,
                                               n: Tree, f: seq<Event<W>>, s: nat, j: nat, from: int, x: int, k: nat)
    requires ShutOwn(t, events, path, own, n, f, s, j, from, x) && From(own, s) <= k < From(own, j) && k < |f|
    requires Lives(n, f) && n.kind.SkipUnlessUpdated?
    ensures LastSeen(n, f, k) == x
    decreases k
  {
    hide Fits, Skeleton, After, Flat, OwnRun, StateAt, ShutOwn, Within, Reaches, NodeAt, At, Shut, LastSeen;
    GateLives(t, events, path, own, n, f, s, j, from, x);
    if k == From(own, s) {
      SeenAtFirst(t, events, path, own, n, f, s, j, from, x);
    } else {
      SeenBefore(t, events, path, own, n, f, s, j, from, x, k - 1);
      SeenNext(t, events, path, own, n, f, s, j, from, x, k - 1);
    }
  }

  lemma SeenAtFirst<W(!new)>(t: Tree, events: seq<Event<W>>, path: seq<nat>, own: seq<seq<Event<W>>>, n: Tree,
                             f: seq<Event<W>>, s: nat, j: nat, from: int, x: int)
    requires ShutOwn(t, events, path, own, n, f, s, j, from, x) && Lives(n, f) && n.kind.SkipUnlessUpdated?
    requires s <= |own| && From(own, s) <= |f|
    ensures LastSeen(n, f, From(own, s)) == x
  {
    hide Fits, Skeleton, After, Flat, OwnRun, Shut, LastSeen, Reaches, NodeAt, At, StateAt;
    VersionIsLastSeen(n, f, From(own, s));
  }

  lemma SeenNext<W(!new)>(t: Tree, events: seq<Event<W>>, path: seq<nat>, own: seq<seq<Event<W>>>, n: Tree,
                          f: seq<Event<W>>, s: nat, j: nat, from: int, x: int, k: nat)
    requires ShutOwn(t, events, path, own, n, f, s, j, from, x) && From(own, s) <= k < From(own, j) && k < |f|
    requires Lives(n, f) && n.kind.SkipUnlessUpdated? && LastSeen(n, f, k) == x
    ensures LastSeen(n, f, k + 1) == x
  {
    hide Fits, Skeleton, After, Flat, OwnRun, StateAt, ShutOwn, Within, Reaches, NodeAt, At;
    if f[k].TickBy? && StateAt(n, f, k).status != Running {
      var i := ReadsShut(t, events, path, own, n, f, s, j, from, x, k);
    }
  }
}
