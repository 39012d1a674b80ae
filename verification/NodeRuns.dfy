/**
 Single nodes over whole runs. In any run of a tree every node goes through a run of its own, made of ticks and halts,
 each in the environment of the tree's event it belongs to and in a world that this event passes through; so what holds
 of a node in all runs of its own holds of it anywhere in any tree, with the ports and clocks of the tree's run.
 */
module NodeRuns {
  import opened Wrappers
  import opened BehaviourTrees
  import opened TreeInvariant
  import opened NodeMeaning

  // ---------------------------------------------------------------------- how worlds go on

  /** What a node, whichever it is, can do to the world. */
  datatype Move =
    | Initialises(id: nat)
    | Updates(id: nat)
    | Terminates(id: nat, status: Status)
    | Writes(id: nat, item: Item)

  ghost function MovedBy<W>(env: Env<W>, w: W, m: Move): W {
    match m
    case Initialises(id) => env.initialise(id, w)
    case Updates(id) => env.update(id, w).1
    case Terminates(id, s) => env.terminate(id, s, w)
    case Writes(id, item) => env.write(id, item, w)
  }

  ghost function Moved<W>(env: Env<W>, w: W, moves: seq<Move>): W
    decreases |moves|
  {
    if moves == [] then w else Moved(env, MovedBy(env, w, moves[0]), moves[1..])
  }

  /** What nodes do leads from world a to world b. */
  ghost predicate Later<W>(env: Env<W>, a: W, b: W) {
    exists moves :: Moved(env, a, moves) == b
  }

  lemma NotLater<W>(env: Env<W>, w: W)
    ensures Later(env, w, w)
  {
    assert Moved(env, w, []) == w;
  }

  lemma {:induction false} MovedTwice<W>(env: Env<W>, w: W, a: seq<Move>, b: seq<Move>)
    ensures Moved(env, w, a + b) == Moved(env, Moved(env, w, a), b)
    decreases |a|
  {
    if a == [] {
      assert a + b == b;
    } else {
      assert (a + b)[1..] == a[1..] + b;
      MovedTwice(env, MovedBy(env, w, a[0]), a[1..], b);
    }
  }

  lemma LaterStill<W>(env: Env<W>, a: W, b: W, c: W)
    requires Later(env, a, b) && Later(env, b, c)
    ensures Later(env, a, c)
  {
    var first :| Moved(env, a, first) == b;
    var second :| Moved(env, b, second) == c;
    MovedTwice(env, a, first, second);
  }

  // ------------------------------------------------------- and which nodes make them go on

  /** A node of s has this id. */
  ghost predicate Has(s: Skel, id: nat) {
    s.id == id || exists i :: 0 <= i < |s.children| && Has(s.children[i], id)
  }

  /** What the nodes of s do, and no others, leads from world a to world b. */
  ghost predicate LaterBy<W>(env: Env<W>, s: Skel, a: W, b: W) {
    exists moves :: MovesOf(s, moves) && Moved(env, a, moves) == b
  }

  ghost predicate MovesOf(s: Skel, moves: seq<Move>) {
    forall m | m in moves :: Has(s, m.id)
  }

  lemma LaterByIsLater<W>(env: Env<W>, s: Skel, a: W, b: W)
    requires LaterBy(env, s, a, b)
    ensures Later(env, a, b)
  {
    var moves :| MovesOf(s, moves) && Moved(env, a, moves) == b;
  }

  lemma NotLaterBy<W>(env: Env<W>, t: Tree, w: W)
    ensures LaterBy(env, Skeleton(t), w, w)
  {
    assert MovesOf(Skeleton(t), []) && Moved(env, w, []) == w;
  }

  lemma MoveIsLaterBy<W>(env: Env<W>, t: Tree, w: W, m: Move)
    requires m.id == t.id
    ensures LaterBy(env, Skeleton(t), w, MovedBy(env, w, m))
  {
    assert [m][1..] == [];
    assert MovesOf(Skeleton(t), [m]) && Moved(env, w, [m]) == Moved(env, MovedBy(env, w, m), []);
  }

  lemma LaterByStill<W>(env: Env<W>, s: Skel, a: W, b: W, c: W)
    requires LaterBy(env, s, a, b) && LaterBy(env, s, b, c)
    ensures LaterBy(env, s, a, c)
  {
    var first :| MovesOf(s, first) && Moved(env, a, first) == b;
    var second :| MovesOf(s, second) && Moved(env, b, second) == c;
    MovedTwice(env, a, first, second);
    assert MovesOf(s, first + second);
  }

  /** The nodes of a child are nodes of the tree. */
  lemma LaterInWhole<W>(env: Env<W>, t: Tree, j: nat, a: W, b: W)
    requires j < |t.children| && LaterBy(env, Skeleton(t.children[j]), a, b)
    ensures LaterBy(env, Skeleton(t), a, b)
  {
    var moves :| MovesOf(Skeleton(t.children[j]), moves) && Moved(env, a, moves) == b;
    assert Skeleton(t).children[j] == Skeleton(t.children[j]);
    assert MovesOf(Skeleton(t), moves);
  }

  // ------------------------------------------------------------------ one event after the other

  ghost function Once<W>(t: Tree, e: Event<W>): (r: Tree)
    requires Fits(Skeleton(t))
    ensures Skeleton(r) == Skeleton(t)
  {
    if e.TickBy? then Tick(e.env, t, e.w).t else Stop(e.env, t, Invalid, e.w).t
  }

  /** The world that an event ends in. */
  ghost function OnceWorld<W>(t: Tree, e: Event<W>): W
    requires Fits(Skeleton(t))
  {
    if e.TickBy? then Tick(e.env, t, e.w).w else Stop(e.env, t, Invalid, e.w).w
  }

  /**
   Between the worlds w and w' the node c goes through the events es and becomes c': each is in this environment and
   begins in the world where the one before ended, or in a later one; the last ends in w' or before.
   */
  ghost predicate Passed<W>(env: Env<W>, c: Tree, w: W, es: seq<Event<W>>, c': Tree, w': W)
    requires Fits(Skeleton(c))
    decreases |es|
  {
    if es == [] then c' == c && Later(env, w, w')
    else
      var e := es[0];
      && e.env == env && Later(env, w, e.w)
      && Passed(env, Once(c, e), OnceWorld(c, e), es[1..], c', w')
  }

  lemma PassedOne<W>(e: Event<W>, c: Tree)
    requires Fits(Skeleton(c))
    ensures Passed(e.env, c, e.w, [e], Once(c, e), OnceWorld(c, e))
  {
    hide Later, Once, OnceWorld, Fits, Skeleton;
    NotLater(e.env, e.w);
    NotLater(e.env, OnceWorld(c, e));
    assert [e][1..] == [];
  }

  lemma PassedLater<W>(env: Env<W>, c: Tree, w: W, w1: W, es: seq<Event<W>>, c': Tree, w': W)
    requires Fits(Skeleton(c)) && Later(env, w, w1) && Passed(env, c, w1, es, c', w')
    ensures Passed(env, c, w, es, c', w')
  {
    hide Later, Once, OnceWorld, Fits, Skeleton;
    LaterStill(env, w, w1, if es == [] then w' else es[0].w);
  }

  lemma {:induction false} PassedBoth<W>(env: Env<W>, c: Tree, w: W, a: seq<Event<W>>, c1: Tree, w1: W,
                                         b: seq<Event<W>>, c2: Tree, w2: W)
    requires Fits(Skeleton(c)) && Passed(env, c, w, a, c1, w1)
    requires Fits(Skeleton(c1)) && Passed(env, c1, w1, b, c2, w2)
    ensures Passed(env, c, w, a + b, c2, w2)
    decreases |a|
  {
    hide Later, Once, OnceWorld, Fits, Skeleton;
    if a == [] {
      assert a + b == b;
      PassedLater(env, c, w, w1, b, c2, w2);
    } else {
      assert (a + b)[1..] == a[1..] + b;
      PassedBoth(env, Once(c, a[0]), OnceWorld(c, a[0]), a[1..], c1, w1, b, c2, w2);
    }
  }

  lemma {:induction false} AfterBoth<W>(t: Tree, a: seq<Event<W>>, b: seq<Event<W>>)
    requires Fits(Skeleton(t))
    ensures After(t, a + b) == After(After(t, a), b)
    decreases |b|
  {
    hide Fits, Skeleton;
    if b == [] {
      assert a + b == a;
    } else {
      var n := |b| - 1;
      assert (a + b)[..|a + b| - 1] == a + b[..n];
      AfterBoth(t, a, b[..n]);
    }
  }

  lemma AfterNone<W>(t: Tree)
    requires Fits(Skeleton(t))
    ensures After<W>(t, []) == t
  {
  }

  lemma AfterOne<W>(t: Tree, e: Event<W>)
    requires Fits(Skeleton(t))
    ensures After(t, [e]) == Once(t, e)
  {
    hide Fits, Skeleton, Tick, Stop;
    assert [e][..0] == [];
    assert After(t, [e][..0]) == t;
  }

  /** What a node passes through is a run of it. */
  lemma {:induction false} PassedIsRun<W>(env: Env<W>, c: Tree, w: W, es: seq<Event<W>>, c': Tree, w': W)
    requires Fits(Skeleton(c)) && Passed(env, c, w, es, c', w')
    ensures c' == After(c, es)
    decreases |es|
  {
    hide Later, Once, OnceWorld, Fits, Skeleton, Tick, Stop;
    if es == [] {
    } else {
      PassedIsRun(env, Once(c, es[0]), OnceWorld(c, es[0]), es[1..], c', w');
      AfterOne(c, es[0]);
      AfterBoth(c, [es[0]], es[1..]);
      assert [es[0]] + es[1..] == es;
    }
  }

  // ---------------------------------------------------------------- what happens to child i

  /**
   From world w on, t became r.t in world r.w, and its child i passed through the events es. A tree that has no child i
   is only said to go on to a world that its own nodes lead to.
   */
  ghost predicate Leads<W>(env: Env<W>, t: Tree, w: W, r: Run<W>, i: nat, es: seq<Event<W>>) {
    && Skeleton(r.t) == Skeleton(t) && |r.t.children| == |t.children|
    && if i < |t.children|
       then Fits(Skeleton(t.children[i])) && Passed(env, t.children[i], w, es, r.t.children[i], r.w)
       else es == [] && LaterBy(env, Skeleton(t), w, r.w)
  }

  lemma ThenLeads<W>(env: Env<W>, t: Tree, w: W, r: Run<W>, q: Run<W>, i: nat, a: seq<Event<W>>, b: seq<Event<W>>)
    requires Leads(env, t, w, r, i, a) && Leads(env, r.t, r.w, q, i, b)
    ensures Leads(env, t, w, q, i, a + b)
  {
    hide LaterBy, Passed, Fits;
    if i < |t.children| {
      PassedBoth(env, t.children[i], w, a, r.t.children[i], r.w, b, q.t.children[i], q.w);
    } else {
      LaterByStill(env, Skeleton(t), w, r.w, q.w);
    }
  }

  /** What is not about children changes, and the world goes on. */
  lemma StayLeads<W>(env: Env<W>, t: Tree, w: W, t1: Tree, w1: W, i: nat, es: seq<Event<W>>)
    requires Fits(Skeleton(t)) && t1 == t.(status := t1.status, mem := t1.mem) && LaterBy(env, Skeleton(t), w, w1)
    requires es == []
    ensures Leads(env, t, w, Run(t1, w1), i, es) && Fits(Skeleton(t1)) && Skeleton(t1) == Skeleton(t)
  {
    hide LaterBy, Later;
    if i < |t.children| {
      assert Skeleton(t).children[i] == Skeleton(t.children[i]);
      LaterByIsLater(env, Skeleton(t), w, w1);
    }
  }

  /** And then something else happens. */
  lemma StayThenLeads<W>(env: Env<W>, t: Tree, w: W, t1: Tree, w1: W, q: Run<W>, i: nat, es: seq<Event<W>>)
    requires Fits(Skeleton(t)) && t1 == t.(status := t1.status, mem := t1.mem) && LaterBy(env, Skeleton(t), w, w1)
    requires Leads(env, t1, w1, q, i, es)
    ensures Leads(env, t, w, q, i, es)
  {
    hide LaterBy, Leads, Fits, Skeleton;
    StayLeads(env, t, w, t1, w1, i, []);
    ThenLeads(env, t, w, Run(t1, w1), q, i, [], es);
    assert [] + es == es;
  }

  lemma ThenStayLeads<W>(env: Env<W>, t: Tree, w: W, r: Run<W>, t1: Tree, w1: W, i: nat, es: seq<Event<W>>)
    requires Leads(env, t, w, r, i, es) && t1 == r.t.(status := t1.status, mem := t1.mem)
    requires Fits(Skeleton(t)) && LaterBy(env, Skeleton(t), r.w, w1)
    ensures Leads(env, t, w, Run(t1, w1), i, es)
  {
    hide LaterBy;
    LeadsFit(env, t, w, r, i, es);
    hide Leads, Fits, Skeleton;
    StayLeads(env, r.t, r.w, t1, w1, i, []);
    ThenLeads(env, t, w, r, Run(t1, w1), i, es, []);
    assert es + [] == es;
  }

  lemma LeadsFit<W>(env: Env<W>, t: Tree, w: W, r: Run<W>, i: nat, es: seq<Event<W>>)
    requires Leads(env, t, w, r, i, es)
    ensures Skeleton(r.t) == Skeleton(t) && |r.t.children| == |t.children|
  {
  }

  lemma NothingLeads<W>(env: Env<W>, t: Tree, w: W, i: nat, es: seq<Event<W>>)
    requires Fits(Skeleton(t)) && es == []
    ensures Leads(env, t, w, Run(t, w), i, es)
  {
    hide LaterBy, Leads, Fits, Skeleton;
    NotLaterBy(env, t, w);
    StayLeads(env, t, w, t, w, i, es);
  }

  /** Child j went through one event, in the world of the tree. */
  lemma ChildLeads<W>(t: Tree, j: nat, e: Event<W>, i: nat) returns (es: seq<Event<W>>)
    requires Fits(Skeleton(t)) && j < |t.children| && Fits(Skeleton(t.children[j]))
    requires LaterBy(e.env, Skeleton(t.children[j]), e.w, OnceWorld(t.children[j], e))
    ensures var r := Run(t.(children := t.children[j := Once(t.children[j], e)]), OnceWorld(t.children[j], e));
            Leads(e.env, t, e.w, r, i, es)
    ensures es == [] || es == [e]
  {
    var c := t.children[j];
    es := if i == j then [e] else [];
    var r := Run(t.(children := t.children[j := Once(c, e)]), OnceWorld(c, e));
    hide LaterBy, Once, OnceWorld;
    PassedOne(e, c);
    LaterInWhole(e.env, t, j, e.w, OnceWorld(c, e));
    assert Skeleton(r.t) == Skeleton(t);
    if i < |t.children| {
      assert Skeleton(t).children[i] == Skeleton(t.children[i]);
    }
  }

  // ------------------------------------------------------------------------------- halting

  ghost predicate OnlyHalts<W>(es: seq<Event<W>>) {
    forall e | e in es :: e.HaltBy?
  }

  lemma {:induction false} HaltChildLeads<W>(env: Env<W>, t: Tree, j: nat, w: W, i: nat) returns (es: seq<Event<W>>)
    requires Fits(Skeleton(t)) && j < |t.children|
    ensures Leads(env, t, w, HaltChild(env, t, j, w), i, es) && OnlyHalts(es)
    decreases Skeleton(t), 0
  {
    assert Skeleton(t).children[j] == Skeleton(t.children[j]);
    var c := t.children[j];
    hide Leads, LaterBy, Stop;
    var none := StopLeads(env, c, Invalid, w, |c.children|);
    OnlyLater(env, c, w, Stop(env, c, Invalid, w), |c.children|, none);
    es := ChildLeads(t, j, HaltBy(env, w), i);
  }

  lemma OnlyLater<W>(env: Env<W>, t: Tree, w: W, r: Run<W>, i: nat, es: seq<Event<W>>)
    requires Leads(env, t, w, r, i, es) && i >= |t.children|
    ensures LaterBy(env, Skeleton(t), w, r.w) && Later(env, w, r.w)
  {
    LaterByIsLater(env, Skeleton(t), w, r.w);
  }

  lemma {:induction false} HaltKidsLead<W>(env: Env<W>, t: Tree, onlyRunning: bool, k: nat, w: W, i: nat)
    returns (es: seq<Event<W>>)
    requires Fits(Skeleton(t))
    ensures Leads(env, t, w, HaltKids(env, t, onlyRunning, k, w), i, es) && OnlyHalts(es)
    decreases Skeleton(t), 1, |t.children| - k
  {
    hide Leads, LaterBy, Fits, Skeleton, HaltChild;
    if k >= |t.children| {
      es := [];
      NothingLeads(env, t, w, i, es);
    } else {
      var halt := if onlyRunning then t.children[k].status == Running else t.children[k].status != Invalid;
      if halt {
        var a := HaltChildLeads(env, t, k, w, i);
        var r := HaltChild(env, t, k, w);
        var b := HaltKidsLead(env, r.t, onlyRunning, k + 1, r.w, i);
        es := a + b;
        ThenLeads(env, t, w, r, HaltKids(env, t, onlyRunning, k, w), i, a, b);
      } else {
        es := HaltKidsLead(env, t, onlyRunning, k + 1, w, i);
      }
    }
  }

  lemma {:induction false} StopLeads<W>(env: Env<W>, t: Tree, s: Status, w: W, i: nat) returns (es: seq<Event<W>>)
    requires Fits(Skeleton(t))
    ensures Leads(env, t, w, Stop(env, t, s, w), i, es) && OnlyHalts(es)
    decreases Skeleton(t), 2
  {
    hide Leads, LaterBy, Fits, Skeleton, HaltKids;
    var a := [];
    var r := Run(t, w);
    NothingLeads(env, t, w, i, a);
    if t.kind.CountingParallel? {
      a := HaltKidsLead(env, t, true, 0, w, i);
      r := HaltKids(env, t, true, 0, w);
    }
    es := a;
    if s == Invalid {
      var b := HaltKidsLead(env, r.t, false, 0, r.w, i);
      var q := HaltKids(env, r.t, false, 0, r.w);
      es := a + b;
      ThenLeads(env, t, w, r, q, i, a, b);
      r := q;
    }
    var end := Stop(env, t, s, w);
    MoveIsLaterBy(env, t, r.w, Terminates(t.id, s));
    ThenStayLeads(env, t, w, r, end.t, end.w, i, es);
  }

  lemma FinishLeads<W>(env: Env<W>, t: Tree, s: Ended, w: W, i: nat) returns (es: seq<Event<W>>)
    requires Fits(Skeleton(t))
    ensures Leads(env, t, w, Finish(env, t, s, w), i, es)
  {
    hide Leads, LaterBy, Fits, Skeleton, Stop;
    if s != Running {
      es := StopLeads(env, t, s, w, i);
    } else {
      es := [];
      NotLaterBy(env, t, w);
      StayLeads(env, t, w, t.(status := Running), w, i, es);
    }
  }

  lemma RestartLeads<W>(env: Env<W>, t: Tree, w: W, i: nat) returns (es: seq<Event<W>>)
    requires Fits(Skeleton(t)) && t.children != []
    ensures Leads(env, t, w, RestartChild(env, t, w), i, es)
  {
    hide Leads, LaterBy, Fits, Skeleton, HaltChild;
    if t.children[0].status != Invalid {
      es := HaltChildLeads(env, t, 0, w, i);
    } else {
      es := [];
      NothingLeads(env, t, w, i, es);
    }
  }

  lemma HaltIfRunningLeads<W>(env: Env<W>, t: Tree, j: nat, w: W, i: nat) returns (es: seq<Event<W>>)
    requires Fits(Skeleton(t)) && j < |t.children|
    ensures Leads(env, t, w, HaltIfRunning(env, t, j, w), i, es)
  {
    hide Leads, LaterBy, Fits, Skeleton, HaltChild;
    if t.children[j].status == Running {
      es := HaltChildLeads(env, t, j, w, i);
    } else {
      es := [];
      NothingLeads(env, t, w, i, es);
    }
  }

  lemma BeginIsLater<W>(env: Env<W>, t: Tree, w: W)
    ensures LaterBy(env, Skeleton(t), w, Begin(env, t, w)) && Later(env, w, Begin(env, t, w))
  {
    hide LaterBy, Later;
    NotLaterBy(env, t, w);
    MoveIsLaterBy(env, t, w, Initialises(t.id));
    LaterByIsLater(env, Skeleton(t), w, Begin(env, t, w));
  }

  // ------------------------------------------------------------------------------- ticking

  /** The main step: what one tick of any node does to its child i, and to the world. */
  lemma {:induction false} TickLeads<W>(env: Env<W>, t: Tree, w: W, i: nat) returns (es: seq<Event<W>>)
    requires Fits(Skeleton(t))
    ensures Leads(env, t, w, Tick(env, t, w), i, es)
    decreases Skeleton(t), 9
  {
    PartsFit(t, []);
    hide Leads, LaterBy, Fits, Skeleton, TickLeaf, TickPlain, TickConditional, TickSequence, TickSelector, MemoryFrom,
         TickParallelAll, TickCounting, TickIfThenElse, TickWhileDoElse, TickSwitch, TickDecorator;
    if t.kind.Leaf? {
      es := LeafLeads(env, t, w, i);
    } else if t.kind.Conditional? {
      es := ConditionalLeads(env, t, w, i);
    } else if IsPlain(t.kind) {
      es := PlainLeads(env, t, w, i);
    } else if IsControl(t.kind) {
      es := ControlLeads(env, t, w, i);
    } else {
      es := DecoratorLeads(env, t, w, i);
    }
  }

  lemma LeafLeads<W>(env: Env<W>, t: Tree, w: W, i: nat) returns (es: seq<Event<W>>)
    requires Fits(Skeleton(t))
    ensures Leads(env, t, w, TickLeaf(env, t, w), i, es)
  {
    hide Leads, LaterBy, Fits, Skeleton, Finish, Begin;
    var w1 := Begin(env, t, w);
    var (s, w2) := env.update(t.id, w1);
    es := FinishLeads(env, t, s, w2, i);
    BeginIsLater(env, t, w);
    MoveIsLaterBy(env, t, w1, Updates(t.id));
    LaterByStill(env, Skeleton(t), w, w1, w2);
    StayThenLeads(env, t, w, t, w2, Finish(env, t, s, w2), i, es);
  }

  lemma {:induction false} TickChildLeads<W>(env: Env<W>, t: Tree, j: nat, w: W, i: nat) returns (es: seq<Event<W>>)
    requires Fits(Skeleton(t)) && j < |t.children|
    ensures Leads(env, t, w, TickChild(env, t, j, w), i, es)
    decreases Skeleton(t), 0
  {
    assert Skeleton(t).children[j] == Skeleton(t.children[j]);
    var c := t.children[j];
    hide Leads, LaterBy, Tick;
    var none := TickLeads(env, c, w, |c.children|);
    OnlyLater(env, c, w, Tick(env, c, w), |c.children|, none);
    es := ChildLeads(t, j, TickBy(env, w), i);
  }

  /** A child is ticked and the node finishes with some status. */
  lemma {:induction false} TickAndFinishLead<W>(env: Env<W>, t: Tree, j: nat, s: Ended, w: W, i: nat)
    returns (es: seq<Event<W>>)
    requires Fits(Skeleton(t)) && j < |t.children|
    ensures var r := TickChild(env, t, j, w); Leads(env, t, w, Finish(env, r.t, s, r.w), i, es)
    decreases Skeleton(t), 1
  {
    hide Leads, LaterBy, Fits, Skeleton, TickChild, Finish;
    var a := TickChildLeads(env, t, j, w, i);
    var r := TickChild(env, t, j, w);
    var b := FinishLeads(env, r.t, s, r.w, i);
    es := a + b;
    ThenLeads(env, t, w, r, Finish(env, r.t, s, r.w), i, a, b);
  }

  lemma {:induction false} RunBranchLeads<W>(env: Env<W>, t: Tree, j: nat, w: W, i: nat) returns (es: seq<Event<W>>)
    requires Fits(Skeleton(t)) && j < |t.children|
    ensures Leads(env, t, w, RunBranch(env, t, j, w), i, es)
    decreases Skeleton(t), 2
  {
    hide Leads, LaterBy, Fits, Skeleton, TickChild, Finish;
    es := TickAndFinishLead(env, t, j, TickChild(env, t, j, w).t.children[j].status, w, i);
  }

  lemma {:induction false} PlainLeads<W>(env: Env<W>, t: Tree, w: W, i: nat) returns (es: seq<Event<W>>)
    requires Fits(Skeleton(t)) && |t.children| == 1
    ensures Leads(env, t, w, TickPlain(env, t, w), i, es)
    decreases Skeleton(t), 2
  {
    hide Leads, LaterBy, Fits, Skeleton, TickChild, Finish, Begin;
    var w1 := Begin(env, t, w);
    es := TickAndFinishLead(env, t, 0, Mapped(t.kind, TickChild(env, t, 0, w1).t.children[0].status), w1, i);
    BeginIsLater(env, t, w);
    StayThenLeads(env, t, w, t, w1, TickPlain(env, t, w), i, es);
  }

  lemma {:induction false} ConditionalLeads<W>(env: Env<W>, t: Tree, w: W, i: nat) returns (es: seq<Event<W>>)
    requires Fits(Skeleton(t)) && |t.children| == 1 && t.kind.Conditional?
    ensures Leads(env, t, w, TickConditional(env, t, w), i, es)
    decreases Skeleton(t), 3
  {
    hide Leads, LaterBy, Fits, Skeleton, Stop, RestartChild, TickPlain, Forced;
    match Forced(env, t, w)
    case None => es := PlainLeads(env, t, w, i);
    case Some(s) =>
      var a := RestartLeads(env, t, w, i);
      var r := RestartChild(env, t, w);
      var b := StopLeads(env, r.t, s, r.w, i);
      es := a + b;
      ThenLeads(env, t, w, r, Stop(env, r.t, s, r.w), i, a, b);
  }

  // ---------------------------------------------------------------------------- decorators

  lemma {:induction false} RoundLeads<W>(env: Env<W>, t: Tree, w: W, i: nat) returns (es: seq<Event<W>>)
    requires Fits(Skeleton(t)) && |t.children| == 1
    ensures var s := Round(env, t, w); Leads(env, t, w, Run(s.t, s.w), i, es)
    decreases Skeleton(t), 5
  {
    hide Leads, LaterBy, Fits, Skeleton, TickChild, NextItem, AfterChild;
    var s := Round(env, t, w);
    var next := t.kind.Loop? && t.children[0].status != Running;
    if next && t.mem.queue == [] {
      es := [];
      NothingLeads(env, t, w, i, es);
      return;
    }
    var a := [];
    var p := Run(t, w);
    NothingLeads(env, t, w, i, a);
    if next {
      p := NextItem(env, t, w);
      a := NextItemLeads(env, t, w, i);
    }
    LeadsFit(env, t, w, p, i, a);
    var b := TickChildLeads(env, p.t, 0, p.w, i);
    var r := TickChild(env, p.t, 0, p.w);
    ThenLeads(env, t, w, p, r, i, a, b);
    var c := AfterChildLeads(env, r.t, r.w, i);
    es := a + b + c;
    ThenLeads(env, t, w, r, Run(s.t, s.w), i, a + b, c);
  }

  lemma NextItemLeads<W>(env: Env<W>, t: Tree, w: W, i: nat) returns (es: seq<Event<W>>)
    requires Fits(Skeleton(t)) && |t.children| == 1 && t.mem.queue != []
    ensures Leads(env, t, w, NextItem(env, t, w), i, es)
  {
    hide Leads, LaterBy, Fits, Skeleton, RestartChild;
    var t1 := t.(mem := t.mem.(queue := t.mem.queue[1..], started := true));
    var m := Writes(t.id, t.mem.queue[0]);
    MoveIsLaterBy(env, t, w, m);
    StayLeads(env, t, w, t1, MovedBy(env, w, m), i, []);
    es := RestartLeads(env, t1, MovedBy(env, w, m), i);
    StayThenLeads(env, t, w, t1, MovedBy(env, w, m), NextItem(env, t, w), i, es);
  }

  lemma AfterChildLeads<W>(env: Env<W>, t: Tree, w: W, i: nat) returns (es: seq<Event<W>>)
    requires Fits(Skeleton(t)) && |t.children| == 1 && t.children[0].status != Invalid
    ensures var s := AfterChild(env, t, w); Leads(env, t, w, Run(s.t, s.w), i, es)
  {
    hide Leads, LaterBy, Fits, Skeleton, RestartChild;
    var s := AfterChild(env, t, w);
    NotLaterBy(env, t, w);
    var more := if t.kind.KeepRunning? then t else t.(mem := t.mem.(count := t.mem.count + 1));
    if s.t == t || s.t == more {
      StayLeads(env, t, w, more, w, i, []);
    }
    if s == Step(t, w, s.verdict) || s == Step(more, w, s.verdict) {
      es := [];
      StayLeads(env, t, w, s.t, w, i, es);
    } else {
      StayLeads(env, t, w, more, w, i, []);
      es := RestartLeads(env, more, w, i);
      StayThenLeads(env, t, w, more, w, RestartChild(env, more, w), i, es);
    }
  }

  lemma {:induction false} RoundsLead<W>(env: Env<W>, t: Tree, rounds: nat, w: W, i: nat) returns (es: seq<Event<W>>)
    requires Fits(Skeleton(t)) && |t.children| == 1
    ensures var s := Rounds(env, t, rounds, w); Leads(env, t, w, Run(s.t, s.w), i, es)
    decreases Skeleton(t), 6, rounds
  {
    hide Leads, LaterBy, Fits, Skeleton, Tick, Round, Rounds;
    if rounds == 0 {
      es := [];
      NothingLeads(env, t, w, i, es);
      NoRounds(env, t, w);
    } else {
      es := RoundLeads(env, t, w, i);
      var s := Round(env, t, w);
      OneMoreRound(env, t, rounds, w);
      if s.verdict == Again {
        var b := RoundsLead(env, s.t, rounds - 1, s.w, i);
        var e := Rounds(env, s.t, rounds - 1, s.w);
        ThenLeads(env, t, w, Run(s.t, s.w), Run(e.t, e.w), i, es, b);
        es := es + b;
      }
    }
  }

  lemma NoRounds<W>(env: Env<W>, t: Tree, w: W)
    requires Fits(Skeleton(t)) && |t.children| == 1
    ensures Rounds(env, t, 0, w) == Step(t, w, End(Running))
  {
  }

  lemma OneMoreRound<W>(env: Env<W>, t: Tree, rounds: nat, w: W)
    requires Fits(Skeleton(t)) && |t.children| == 1 && rounds > 0
    ensures var s := Round(env, t, w);
            && Skeleton(s.t) == Skeleton(t) && |s.t.children| == 1
            && Rounds(env, t, rounds, w) == if s.verdict == Again then Rounds(env, s.t, rounds - 1, s.w) else s
  {
    hide Round, Fits;
    assert |Skeleton(Round(env, t, w).t).children| == |Skeleton(t).children|;
  }

  lemma {:induction false} DoStepLeads<W>(env: Env<W>, t: Tree, rounds: nat, w: W, i: nat) returns (es: seq<Event<W>>)
    requires Fits(Skeleton(t)) && |t.children| == 1
    ensures var s := DoStep(env, t, rounds, w); Leads(env, t, w, Run(s.t, s.w), i, es)
    decreases Skeleton(t), 7, 0
  {
    hide Leads, LaterBy, Fits, Skeleton, Tick, TickChild, RestartChild, Rounds;
    var s := DoStep(env, t, rounds, w);
    if IsLooping(t.kind) {
      es := RoundsLead(env, t, rounds, w, i);
    } else if s == Step(t, w, s.verdict) {
      es := [];
      NothingLeads(env, t, w, i, es);
    } else {
      es := TickChildLeads(env, t, 0, w, i);
      var r := TickChild(env, t, 0, w);
      NotLaterBy(env, t, r.w);
      if t.kind.Timeout? && r.t.children[0].status == Running && env.now(r.w) >= t.mem.until {
        var b := RestartLeads(env, r.t, r.w, i);
        ThenLeads(env, t, w, r, Run(s.t, s.w), i, es, b);
        es := es + b;
      } else {
        ChildIgnoresMemory(env, t, t.mem.(proceed := true), w);
        assert PassThrough(env, t, w) == Step(r.t, r.w, End(r.t.children[0].status));
        assert PassThrough(env, t.(mem := t.mem.(proceed := true)), w).w == r.w;
        assert s.w == r.w && s.t == r.t.(mem := s.t.mem);
        ThenStayLeads(env, t, w, r, s.t, s.w, i, es);
      }
    }
  }

  lemma {:induction false} DecoratorLeads<W>(env: Env<W>, t: Tree, w: W, i: nat) returns (es: seq<Event<W>>)
    requires Fits(Skeleton(t)) && |t.children| == 1
    ensures Leads(env, t, w, TickDecorator(env, t, MAX_SYNC_ITERATIONS, w), i, es)
    decreases Skeleton(t), 8
  {
    hide Leads, LaterBy, Fits, Skeleton, Tick, DoStep, Finish, Configure;
    if t.status == Running {
      NotLaterBy(env, t, w);
      es := StepAndFinishLead(env, t, t, w, i);
    } else {
      var w1 := env.initialise(t.id, w);
      MoveIsLaterBy(env, t, w, Initialises(t.id));
      match Configure(env, t, w1)
      case None =>
        es := FinishLeads(env, t, Failure, w1, i);
        StayThenLeads(env, t, w, t, w1, Finish(env, t, Failure, w1), i, es);
      case Some(mem) =>
        StayLeads(env, t, w, t.(mem := mem), w1, i, []);
        es := StepAndFinishLead(env, t, t.(mem := mem), w1, i);
        StayThenLeads(env, t, w, t.(mem := mem), w1, TickDecorator(env, t, MAX_SYNC_ITERATIONS, w), i, es);
    }
  }

  /** A step of u, which is t with its ports read, and what comes of it. */
  lemma {:induction false} StepAndFinishLead<W>(env: Env<W>, t: Tree, u: Tree, w: W, i: nat)
    returns (es: seq<Event<W>>)
    requires Fits(Skeleton(u)) && Skeleton(u) == Skeleton(t) && |u.children| == 1
    ensures var d := DoStep(env, u, MAX_SYNC_ITERATIONS, w);
            Leads(env, u, w, Finish(env, d.t, d.verdict.status, d.w), i, es)
    decreases Skeleton(t), 7, 1
  {
    hide Leads, LaterBy, Fits, Skeleton, Tick, DoStep, Finish;
    var a := DoStepLeads(env, u, MAX_SYNC_ITERATIONS, w, i);
    var d := DoStep(env, u, MAX_SYNC_ITERATIONS, w);
    var b := FinishLeads(env, d.t, d.verdict.status, d.w, i);
    es := a + b;
    ThenLeads(env, u, w, Run(d.t, d.w), Finish(env, d.t, d.verdict.status, d.w), i, a, b);
  }

  // ------------------------------------------------------------------------------ controls

  lemma {:induction false} SequenceFromLeads<W>(env: Env<W>, t: Tree, memory: bool, k: nat, w: W, i: nat)
    returns (es: seq<Event<W>>)
    requires Fits(Skeleton(t))
    ensures Leads(env, t, w, SequenceFrom(env, t, memory, k, w), i, es)
    decreases Skeleton(t), 6, |t.children| - k
  {
    hide Leads, LaterBy, Fits, Skeleton, TickChild, HaltKids, Finish;
    var end := SequenceFrom(env, t, memory, k, w);
    if k >= |t.children| {
      es := FinishLeads(env, t, Success, w, i);
    } else {
      es := TickChildLeads(env, t, k, w, i);
      var r := TickChild(env, t, k, w);
      NotLaterBy(env, t, r.w);
      if r.t.children[k].status == Success {
        var t1 := if k + 1 < |t.children| then r.t.(mem := r.t.mem.(index := k + 1)) else r.t;
        StayLeads(env, r.t, r.w, t1, r.w, i, []);
        assert end == SequenceFrom(env, t1, memory, k + 1, r.w);
        var b := SequenceFromLeads(env, t1, memory, k + 1, r.w, i);
        StayThenLeads(env, r.t, r.w, t1, r.w, end, i, b);
        ThenLeads(env, t, w, r, end, i, es, b);
        es := es + b;
      } else if memory {
        ThenStayLeads(env, t, w, r, end.t, end.w, i, es);
      } else {
        var b := HaltKidsLead(env, r.t, false, k + 1, r.w, i);
        var h := HaltKids(env, r.t, false, k + 1, r.w);
        ThenLeads(env, t, w, r, h, i, es, b);
        es := es + b;
        NotLaterBy(env, t, h.w);
        ThenStayLeads(env, t, w, h, end.t, end.w, i, es);
      }
    }
  }

  lemma {:induction false} SequenceLeads<W>(env: Env<W>, t: Tree, memory: bool, w: W, i: nat) returns (es: seq<Event<W>>)
    requires Fits(Skeleton(t))
    ensures Leads(env, t, w, TickSequence(env, t, memory, w), i, es)
    decreases Skeleton(t), 8
  {
    hide Leads, LaterBy, Fits, Skeleton, SequenceFrom, HaltKids;
    var t0 := t.(mem := t.mem.(index := 0));
    var end := TickSequence(env, t, memory, w);
    NotLaterBy(env, t, w);
    StayLeads(env, t, w, t0, w, i, []);
    if t.status == Running {
      var u := if memory then t else t0;
      es := SequenceFromLeads(env, u, memory, if memory then t.mem.index else 0, w, i);
      StayThenLeads(env, t, w, u, w, end, i, es);
    } else {
      var a := HaltKidsLead(env, t0, false, 0, w, i);
      var r := HaltKids(env, t0, false, 0, w);
      var w1 := env.initialise(t.id, r.w);
      var b := SequenceFromLeads(env, r.t, memory, 0, w1, i);
      MoveIsLaterBy(env, t, r.w, Initialises(t.id));
      StayThenLeads(env, r.t, r.w, r.t, w1, end, i, b);
      es := a + b;
      ThenLeads(env, t0, w, r, end, i, a, b);
      StayThenLeads(env, t, w, t0, w, end, i, es);
    }
  }

  lemma {:induction false} StopBeforeLeads<W>(env: Env<W>, t: Tree, k: nat, w: W, i: nat) returns (es: seq<Event<W>>)
    requires Fits(Skeleton(t))
    ensures Leads(env, t, w, StopBefore(env, t, k, w), i, es)
    decreases |t.children| - k
  {
    hide Leads, LaterBy, Fits, Skeleton, HaltChild;
    if k >= |t.children| || k >= t.mem.index {
      es := [];
      NothingLeads(env, t, w, i, es);
    } else {
      var a := HaltChildLeads(env, t, k, w, i);
      var r := HaltChild(env, t, k, w);
      var b := StopBeforeLeads(env, r.t, k + 1, r.w, i);
      es := a + b;
      ThenLeads(env, t, w, r, StopBefore(env, t, k, w), i, a, b);
    }
  }

  lemma {:induction false} SelectorFromLeads<W>(env: Env<W>, t: Tree, k: nat, previous: nat, w: W, i: nat)
    returns (es: seq<Event<W>>)
    requires Fits(Skeleton(t)) && t.children != []
    ensures Leads(env, t, w, SelectorFrom(env, t, k, previous, w), i, es)
    decreases Skeleton(t), 6, |t.children| - k
  {
    hide Leads, LaterBy, Fits, Skeleton, TickChild, HaltKids;
    var end := SelectorFrom(env, t, k, previous, w);
    if k >= |t.children| {
      es := [];
      NotLaterBy(env, t, w);
      StayLeads(env, t, w, end.t, w, i, es);
    } else {
      es := TickChildLeads(env, t, k, w, i);
      var r := TickChild(env, t, k, w);
      NotLaterBy(env, t, r.w);
      var s := r.t.children[k].status;
      if s == Running || s == Success {
        var t1 := r.t.(status := s, mem := r.t.mem.(index := k));
        StayLeads(env, r.t, r.w, t1, r.w, i, []);
        if previous != k {
          var b := HaltKidsLead(env, t1, false, k + 1, r.w, i);
          StayThenLeads(env, r.t, r.w, t1, r.w, end, i, b);
          ThenLeads(env, t, w, r, end, i, es, b);
          es := es + b;
        } else {
          ThenStayLeads(env, t, w, r, t1, r.w, i, es);
        }
      } else {
        var b := SelectorFromLeads(env, r.t, k + 1, previous, r.w, i);
        ThenLeads(env, t, w, r, end, i, es, b);
        es := es + b;
      }
    }
  }

  lemma {:induction false} SelectorLeads<W>(env: Env<W>, t: Tree, memory: bool, w: W, i: nat) returns (es: seq<Event<W>>)
    requires Fits(Skeleton(t))
    ensures Leads(env, t, w, TickSelector(env, t, memory, w), i, es)
    decreases Skeleton(t), 8
  {
    hide Leads, LaterBy, Fits, Skeleton, SelectorFrom, StopBefore, Begin, Finish;
    var t1 := if t.status != Running then t.(mem := t.mem.(index := 0)) else t;
    var w1 := Begin(env, t, w);
    var end := TickSelector(env, t, memory, w);
    BeginIsLater(env, t, w);
    StayLeads(env, t, w, t1, w1, i, []);
    if t.children == [] {
      es := FinishLeads(env, t1, Failure, w1, i);
    } else if memory {
      var a := StopBeforeLeads(env, t1, 0, w1, i);
      var r := StopBefore(env, t1, 0, w1);
      var b := SelectorFromLeads(env, r.t, t1.mem.index, t1.mem.index, r.w, i);
      es := a + b;
      ThenLeads(env, t1, w1, r, end, i, a, b);
    } else {
      es := SelectorFromLeads(env, t1, 0, t1.mem.index, w1, i);
    }
    StayThenLeads(env, t, w, t1, w1, end, i, es);
  }

  lemma {:induction false} MemoryFromLeads<W>(env: Env<W>, t: Tree, w: W, i: nat) returns (es: seq<Event<W>>)
    requires Fits(Skeleton(t))
    ensures Leads(env, t, w, MemoryFrom(env, t, w), i, es)
    decreases Skeleton(t), 6, |t.children| - t.mem.index
  {
    hide Leads, LaterBy, Fits, Skeleton, TickChild, Finish, MemoryFrom;
    MemoryGoesOn(env, t, w);
    var k := t.mem.index;
    var end := MemoryFrom(env, t, w);
    if k >= |t.children| {
      var t0 := t.(mem := t.mem.(index := 0));
      NotLaterBy(env, t, w);
      StayLeads(env, t, w, t0, w, i, []);
      es := FinishLeads(env, t0, Success, w, i);
      StayThenLeads(env, t, w, t0, w, end, i, es);
    } else {
      es := TickChildLeads(env, t, k, w, i);
      var r := TickChild(env, t, k, w);
      NotLaterBy(env, t, r.w);
      var s := r.t.children[k].status;
      if s == Running {
        ThenStayLeads(env, t, w, r, end.t, end.w, i, es);
      } else if s == Failure {
        var b := FinishLeads(env, r.t, Failure, r.w, i);
        ThenLeads(env, t, w, r, end, i, es, b);
        es := es + b;
      } else {
        var t1 := r.t.(mem := r.t.mem.(index := k + 1));
        StayLeads(env, r.t, r.w, t1, r.w, i, []);
        var b := MemoryFromLeads(env, t1, r.w, i);
        StayThenLeads(env, r.t, r.w, t1, r.w, end, i, b);
        ThenLeads(env, t, w, r, end, i, es, b);
        es := es + b;
      }
    }
  }

  lemma {:induction false} UnfinishedLead<W>(env: Env<W>, t: Tree, k: nat, w: W, i: nat) returns (es: seq<Event<W>>)
    requires Fits(Skeleton(t))
    ensures Leads(env, t, w, TickUnfinished(env, t, k, w), i, es)
    decreases Skeleton(t), 6, |t.children| - k
  {
    hide Leads, LaterBy, Fits, Skeleton, TickChild;
    if k >= |t.children| {
      es := [];
      NothingLeads(env, t, w, i, es);
    } else {
      var s := t.children[k].status;
      if s == Success || s == Failure {
        es := UnfinishedLead(env, t, k + 1, w, i);
      } else {
        var a := TickChildLeads(env, t, k, w, i);
        var r := TickChild(env, t, k, w);
        var b := UnfinishedLead(env, r.t, k + 1, r.w, i);
        es := a + b;
        ThenLeads(env, t, w, r, TickUnfinished(env, t, k, w), i, a, b);
      }
    }
  }

  lemma {:induction false} AllFromLeads<W>(env: Env<W>, t: Tree, w: W, i: nat) returns (es: seq<Event<W>>)
    requires Fits(Skeleton(t))
    ensures Leads(env, t, w, AllFrom(env, t, w), i, es)
    decreases Skeleton(t), 7
  {
    hide Leads, LaterBy, Fits, Skeleton, TickUnfinished, Finish, Count;
    var end := AllFrom(env, t, w);
    es := UnfinishedLead(env, t, 0, w, i);
    var r := TickUnfinished(env, t, 0, w);
    if Count(r.t.children, Running) > 0 {
      NotLaterBy(env, t, r.w);
      ThenStayLeads(env, t, w, r, end.t, end.w, i, es);
    } else {
      var s := if Count(r.t.children, Failure) >= Max(t.mem.limit, 1) then Failure else Success;
      var b := FinishLeads(env, r.t, s, r.w, i);
      ThenLeads(env, t, w, r, end, i, es, b);
      es := es + b;
    }
  }

  lemma {:induction false} ParallelAllLeads<W>(env: Env<W>, t: Tree, w: W, i: nat) returns (es: seq<Event<W>>)
    requires Fits(Skeleton(t))
    ensures Leads(env, t, w, TickParallelAll(env, t, w), i, es)
    decreases Skeleton(t), 8
  {
    hide Leads, LaterBy, Fits, Skeleton, AllFrom, HaltKids, Finish;
    var end := TickParallelAll(env, t, w);
    if t.status == Running {
      es := AllFromLeads(env, t, w, i);
    } else {
      var w1 := env.initialise(t.id, w);
      MoveIsLaterBy(env, t, w, Initialises(t.id));
      var a := HaltKidsLead(env, t, false, 0, w1, i);
      var r := HaltKids(env, t, false, 0, w1);
      StayThenLeads(env, t, w, t, w1, r, i, a);
      var b;
      match env.number(t.id, r.w) {
        case None => b := FinishLeads(env, r.t, Failure, r.w, i);
        case Some(v) =>
          var t1 := r.t.(mem := r.t.mem.(limit := CountFrom(v, |t.children|)));
          NotLaterBy(env, t, r.w);
          StayLeads(env, r.t, r.w, t1, r.w, i, []);
          b := AllFromLeads(env, t1, r.w, i);
          StayThenLeads(env, r.t, r.w, t1, r.w, end, i, b);
      }
      es := a + b;
      ThenLeads(env, t, w, r, end, i, a, b);
    }
  }

  lemma {:induction false} CountingLeads<W>(env: Env<W>, t: Tree, sc: int, fc: int, w: W, i: nat)
    returns (es: seq<Event<W>>)
    requires Fits(Skeleton(t))
    ensures Leads(env, t, w, TickCounting(env, t, sc, fc, w), i, es)
    decreases Skeleton(t), 8
  {
    hide Leads, LaterBy, Fits, Skeleton, TickUnfinished, HaltKids, Finish, Stop, Count, CountingStatus, Begin;
    var end := TickCounting(env, t, sc, fc, w);
    var a := [];
    var h := Run(t, w);
    NothingLeads(env, t, w, i, a);
    if t.status != Running {
      a := HaltKidsLead(env, t, false, 0, w, i);
      h := HaltKids(env, t, false, 0, w);
    }
    LeadsFit(env, t, w, h, i, a);
    var w1 := Begin(env, t, h.w);
    BeginIsLater(env, t, h.w);
    var b;
    if t.children == [] {
      b := StopLeads(env, h.t, Success, w1, i);
    } else {
      b := CountedLead(env, h.t, sc, fc, w1, i);
    }
    StayThenLeads(env, h.t, h.w, h.t, w1, end, i, b);
    es := a + b;
    ThenLeads(env, t, w, h, end, i, a, b);
  }

  lemma {:induction false} CountedLead<W>(env: Env<W>, t: Tree, sc: int, fc: int, w: W, i: nat)
    returns (es: seq<Event<W>>)
    requires Fits(Skeleton(t))
    ensures var r := TickUnfinished(env, t, 0, w);
            var s := CountingStatus(Count(r.t.children, Success), Count(r.t.children, Failure), |r.t.children|, sc, fc);
            Leads(env, t, w, Finish(env, r.t, s, r.w), i, es)
    decreases Skeleton(t), 7
  {
    hide Leads, LaterBy, Fits, Skeleton, TickUnfinished, Finish, Count, CountingStatus;
    var a := UnfinishedLead(env, t, 0, w, i);
    var r := TickUnfinished(env, t, 0, w);
    var s := CountingStatus(Count(r.t.children, Success), Count(r.t.children, Failure), |r.t.children|, sc, fc);
    var b := FinishLeads(env, r.t, s, r.w, i);
    es := a + b;
    ThenLeads(env, t, w, r, Finish(env, r.t, s, r.w), i, a, b);
  }

  lemma {:induction false} AskLeads<W>(env: Env<W>, t: Tree, w: W, i: nat) returns (es: seq<Event<W>>)
    requires Fits(Skeleton(t)) && 2 <= |t.children| <= 3
    ensures Leads(env, t, w, AskCondition(env, t, w), i, es)
    decreases Skeleton(t), 7
  {
    hide Leads, LaterBy, Fits, Skeleton, TickChild, RunBranch, Finish;
    var end := AskCondition(env, t, w);
    es := TickChildLeads(env, t, 0, w, i);
    var r := TickChild(env, t, 0, w);
    NotLaterBy(env, t, r.w);
    var s := r.t.children[0].status;
    if s == Running {
      ThenStayLeads(env, t, w, r, end.t, end.w, i, es);
    } else {
      var branch := if s == Success then 1 else 2;
      var b;
      if branch < |t.children| {
        var t1 := r.t.(mem := r.t.mem.(index := branch));
        StayLeads(env, r.t, r.w, t1, r.w, i, []);
        b := RunBranchLeads(env, t1, branch, r.w, i);
        StayThenLeads(env, r.t, r.w, t1, r.w, end, i, b);
      } else {
        b := FinishLeads(env, r.t, Failure, r.w, i);
      }
      ThenLeads(env, t, w, r, end, i, es, b);
      es := es + b;
    }
  }

  lemma {:induction false} IfThenElseLeads<W>(env: Env<W>, t: Tree, w: W, i: nat) returns (es: seq<Event<W>>)
    requires Fits(Skeleton(t)) && 2 <= |t.children| <= 3
    ensures Leads(env, t, w, TickIfThenElse(env, t, w), i, es)
    decreases Skeleton(t), 8
  {
    hide Leads, LaterBy, Fits, Skeleton, AskCondition, RunBranch, Begin;
    var t1 := if t.status != Running then t.(mem := t.mem.(index := 0)) else t;
    var w1 := Begin(env, t, w);
    BeginIsLater(env, t, w);
    StayLeads(env, t, w, t1, w1, i, []);
    if 0 < t1.mem.index < |t.children| {
      es := RunBranchLeads(env, t1, t1.mem.index, w1, i);
    } else {
      es := AskLeads(env, t1, w1, i);
    }
    StayThenLeads(env, t, w, t1, w1, TickIfThenElse(env, t, w), i, es);
  }

  lemma {:induction false} WhileDoElseLeads<W>(env: Env<W>, t: Tree, w: W, i: nat) returns (es: seq<Event<W>>)
    requires Fits(Skeleton(t)) && 2 <= |t.children| <= 3
    ensures Leads(env, t, w, TickWhileDoElse(env, t, w), i, es)
    decreases Skeleton(t), 8
  {
    hide Leads, LaterBy, Fits, Skeleton, TickChild, HaltIfRunning, RunBranch, Finish, Begin;
    var end := TickWhileDoElse(env, t, w);
    var w1 := Begin(env, t, w);
    BeginIsLater(env, t, w);
    es := TickChildLeads(env, t, 0, w1, i);
    var r := TickChild(env, t, 0, w1);
    var s := r.t.children[0].status;
    if s == Running {
      NotLaterBy(env, t, r.w);
      ThenStayLeads(env, t, w1, r, end.t, end.w, i, es);
    } else {
      var other := if s == Success then 2 else 1;
      var h := r;
      if other < |t.children| {
        var b := HaltIfRunningLeads(env, r.t, other, r.w, i);
        h := HaltIfRunning(env, r.t, other, r.w);
        ThenLeads(env, t, w1, r, h, i, es, b);
        es := es + b;
      }
      LeadsFit(env, t, w1, h, i, es);
      var c;
      if s == Success || |t.children| == 3 {
        c := RunBranchLeads(env, h.t, 3 - other, h.w, i);
      } else {
        c := FinishLeads(env, h.t, Failure, h.w, i);
      }
      ThenLeads(env, t, w1, h, end, i, es, c);
      es := es + c;
    }
    StayThenLeads(env, t, w, t, w1, end, i, es);
  }

  lemma {:induction false} SwitchLeads<W>(env: Env<W>, t: Tree, cases: nat, w: W, i: nat) returns (es: seq<Event<W>>)
    requires Fits(Skeleton(t)) && |t.children| == cases + 1
    ensures Leads(env, t, w, TickSwitch(env, t, cases, w), i, es)
    decreases Skeleton(t), 8
  {
    hide Leads, LaterBy, Fits, Skeleton, SwitchTo, MatchingCase, Begin;
    var last := if t.status == Running && t.mem.index <= |t.children| then t.mem.index else 0;
    var w1 := Begin(env, t, w);
    BeginIsLater(env, t, w);
    es := SwitchToLeads(env, t, last, MatchingCase(env, t.id, 0, cases, w1), w1, i);
    StayThenLeads(env, t, w, t, w1, TickSwitch(env, t, cases, w), i, es);
  }

  lemma {:induction false} SwitchToLeads<W>(env: Env<W>, t: Tree, last: nat, k: nat, w: W, i: nat)
    returns (es: seq<Event<W>>)
    requires Fits(Skeleton(t)) && k < |t.children| && last <= |t.children|
    ensures Leads(env, t, w, SwitchTo(env, t, last, k, w), i, es)
    decreases Skeleton(t), 7
  {
    hide Leads, LaterBy, Fits, Skeleton, HaltIfRunning, RunBranch;
    var end := SwitchTo(env, t, last, k, w);
    var a := [];
    var h := Run(t, w);
    NothingLeads(env, t, w, i, a);
    if last != 0 && last - 1 != k {
      a := HaltIfRunningLeads(env, t, last - 1, w, i);
      h := HaltIfRunning(env, t, last - 1, w);
    }
    LeadsFit(env, t, w, h, i, a);
    var t1 := h.t.(mem := h.t.mem.(index := k + 1));
    NotLaterBy(env, t, h.w);
    StayLeads(env, h.t, h.w, t1, h.w, i, []);
    var b := RunBranchLeads(env, t1, k, h.w, i);
    StayThenLeads(env, h.t, h.w, t1, h.w, end, i, b);
    es := a + b;
    ThenLeads(env, t, w, h, end, i, a, b);
  }

  lemma {:induction false} ControlLeads<W>(env: Env<W>, t: Tree, w: W, i: nat) returns (es: seq<Event<W>>)
    requires Fits(Skeleton(t)) && IsControl(t.kind)
    ensures Leads(env, t, w, Tick(env, t, w), i, es)
    decreases Skeleton(t), 9, 0
  {
    PartsFit(t, []);
    hide Leads, LaterBy, Fits, Skeleton, TickSequence, TickSelector, MemoryFrom, TickParallelAll, TickCounting,
         TickIfThenElse, TickWhileDoElse, TickSwitch, Begin;
    match t.kind
    case Sequence(memory) => es := SequenceLeads(env, t, memory, w, i);
    case Selector(memory) => es := SelectorLeads(env, t, memory, w, i);
    case SequenceWithMemory =>
      var w1 := Begin(env, t, w);
      BeginIsLater(env, t, w);
      es := MemoryFromLeads(env, t, w1, i);
      StayThenLeads(env, t, w, t, w1, MemoryFrom(env, t, w1), i, es);
    case ParallelAll => es := ParallelAllLeads(env, t, w, i);
    case CountingParallel(sc, fc) => es := CountingLeads(env, t, sc, fc, w, i);
    case IfThenElse => es := IfThenElseLeads(env, t, w, i);
    case WhileDoElse => es := WhileDoElseLeads(env, t, w, i);
    case Switch(cases) => es := SwitchLeads(env, t, cases, w, i);
  }

  // ---------------------------------------------------------------------- any node below

  lemma {:induction false} SameReach(t: Tree, u: Tree, path: seq<nat>)
    requires Skeleton(u) == Skeleton(t) && Reaches(t, path)
    ensures Reaches(u, path) && Skeleton(At(u, path)) == Skeleton(At(t, path))
    ensures Fits(Skeleton(t)) ==> Fits(Skeleton(At(t, path)))
    decreases |path|
  {
    if path == [] {
    } else {
      var i := path[0];
      assert |Skeleton(t).children| == |t.children| && |Skeleton(u).children| == |u.children|;
      assert Skeleton(t).children[i] == Skeleton(t.children[i]) && Skeleton(u).children[i] == Skeleton(u.children[i]);
      SameReach(t.children[i], u.children[i], path[1..]);
    }
  }

  lemma OnceLeads<W>(t: Tree, e: Event<W>, i: nat) returns (es: seq<Event<W>>)
    requires Fits(Skeleton(t))
    ensures Leads(e.env, t, e.w, Run(Once(t, e), OnceWorld(t, e)), i, es)
    ensures e.HaltBy? ==> OnlyHalts(es)
  {
    hide Leads, Later, Fits, Skeleton, Tick, Stop;
    if e.TickBy? {
      es := TickLeads(e.env, t, e.w, i);
    } else {
      es := StopLeads(e.env, t, Invalid, e.w, i);
    }
  }

  /** What an event of the tree is for the node at a path. */
  lemma {:induction false} OncePasses<W>(t: Tree, e: Event<W>, path: seq<nat>) returns (es: seq<Event<W>>)
    requires Fits(Skeleton(t)) && Reaches(t, path)
    ensures Reaches(Once(t, e), path) && Fits(Skeleton(At(t, path)))
    ensures Passed(e.env, At(t, path), e.w, es, At(Once(t, e), path), OnceWorld(t, e))
    ensures e.HaltBy? ==> OnlyHalts(es)
    decreases |path|, 0
  {
    SameReach(t, Once(t, e), path);
    if path == [] {
      es := [e];
      PassedOne(e, t);
    } else {
      var i := path[0];
      var r := Run(Once(t, e), OnceWorld(t, e));
      var own := OnceLeads(t, e, i);
      assert Leads(e.env, t, e.w, r, i, own);
      hide Passed, Later, Once, OnceWorld, Fits, Skeleton;
      es := PartPasses(e.env, t.children[i], e.w, own, r.t.children[i], r.w, path[1..]);
    }
  }

  /** And what the events that a node passes are for the nodes below it. */
  lemma {:induction false} PartPasses<W>(env: Env<W>, c: Tree, w: W, own: seq<Event<W>>, c': Tree, w': W,
                                         path: seq<nat>) returns (es: seq<Event<W>>)
    requires Fits(Skeleton(c)) && Passed(env, c, w, own, c', w') && Reaches(c, path)
    ensures Reaches(c', path) && Fits(Skeleton(At(c, path)))
    ensures Passed(env, At(c, path), w, es, At(c', path), w')
    ensures OnlyHalts(own) ==> OnlyHalts(es)
    decreases |path|, 1, |own|
  {
    SameReach(c, c, path);
    hide Later, Once, OnceWorld, Fits, Skeleton;
    if own == [] {
      es := [];
    } else {
      var e := own[0];
      var c1 := Once(c, e);
      var a := OncePasses(c, e, path);
      SameReach(c, c1, path);
      var b := PartPasses(env, c1, OnceWorld(c, e), own[1..], c', w', path);
      PassedLater(env, At(c, path), w, e.w, a, At(c1, path), OnceWorld(c, e));
      PassedBoth(env, At(c, path), w, a, At(c1, path), OnceWorld(c, e), b, At(c', path), w');
      es := a + b;
    }
  }

  // ----------------------------------------------------------------------- whole runs

  /** The node at a path before event j of the tree. */
  ghost function NodeAt<W>(t: Tree, events: seq<Event<W>>, path: seq<nat>, j: nat): (n: Tree)
    requires Fits(Skeleton(t)) && Reaches(t, path) && j <= |events|
    ensures Skeleton(n) == Skeleton(At(t, path)) && Fits(Skeleton(n))
  {
    SameReach(t, After(t, events[..j]), path);
    At(After(t, events[..j]), path)
  }

  /** The world that event j of the tree ends in. */
  ghost function WorldAfter<W>(t: Tree, events: seq<Event<W>>, j: nat): W
    requires Fits(Skeleton(t)) && j < |events|
  {
    OnceWorld(After(t, events[..j]), events[j])
  }

  lemma WorldAfterMore<W>(t: Tree, e: Event<W>, rest: seq<Event<W>>, events: seq<Event<W>>, j: nat)
    requires Fits(Skeleton(t)) && events == [e] + rest && j < |events|
    ensures WorldAfter(t, events, j) == if j == 0 then OnceWorld(t, e) else WorldAfter(Once(t, e), rest, j - 1)
  {
    hide Fits, Skeleton, After, OnceWorld, Once;
    AfterNone<W>(t);
    if j == 0 {
      assert events[..j] == [];
    } else {
      var first := rest[..j - 1];
      assert events[..j] == [e] + first;
      AfterBoth(t, [e], first);
      AfterOne(t, e);
    }
  }

  /** What the node at a path goes through during event j of the tree. */
  ghost predicate Segment<W>(t: Tree, events: seq<Event<W>>, path: seq<nat>, j: nat, es: seq<Event<W>>)
    requires Fits(Skeleton(t)) && Reaches(t, path) && j < |events|
  {
    var e := events[j];
    && Passed(e.env, NodeAt(t, events, path, j), e.w, es, NodeAt(t, events, path, j + 1), WorldAfter(t, events, j))
    && (e.HaltBy? ==> OnlyHalts(es))
  }

  /** The run of the node at a path, one segment for every event of the tree. */
  ghost predicate OwnRun<W>(t: Tree, events: seq<Event<W>>, path: seq<nat>, own: seq<seq<Event<W>>>)
    requires Fits(Skeleton(t)) && Reaches(t, path)
  {
    |own| == |events| && forall j | 0 <= j < |events| :: Segment(t, events, path, j, own[j])
  }

  /**
   In any run the node at any path goes through a run of its own: during each event of the tree it is ticked and halted
   a number of times, in the environment of this event and one after the other in worlds that this event passes through;
   by a halt it is only halted. Nothing else changes it.
   */
  lemma {:induction false} EveryNodeRunsByItself<W>(t: Tree, events: seq<Event<W>>, path: seq<nat>)
    returns (own: seq<seq<Event<W>>>)
    requires Fits(Skeleton(t)) && Reaches(t, path)
    ensures OwnRun(t, events, path, own)
    decreases |events|
  {
    hide Segment, Fits, Skeleton, Reaches;
    if events == [] {
      own := [];
    } else {
      var n := |events| - 1;
      var before := events[..n];
      var first := EveryNodeRunsByItself(t, before, path);
      var last := LastSegment(t, events, path);
      own := first + [last];
      forall j | 0 <= j < |events|
        ensures Segment(t, events, path, j, own[j])
      {
        if j < n {
          SameSegment(t, events, path, j, own[j]);
        }
      }
    }
  }

  lemma LastSegment<W>(t: Tree, events: seq<Event<W>>, path: seq<nat>) returns (es: seq<Event<W>>)
    requires Fits(Skeleton(t)) && Reaches(t, path) && events != []
    ensures Segment(t, events, path, |events| - 1, es)
  {
    var n := |events| - 1;
    var u := After(t, events[..n]);
    SameReach(t, u, path);
    assert events[..n + 1] == events;
    hide Passed, Fits, Skeleton, Tick, Stop;
    es := OncePasses(u, events[n], path);
  }

  lemma SameSegment<W>(t: Tree, events: seq<Event<W>>, path: seq<nat>, j: nat, es: seq<Event<W>>)
    requires Fits(Skeleton(t)) && Reaches(t, path) && j + 1 < |events|
    requires Segment(t, events[..|events| - 1], path, j, es)
    ensures Segment(t, events, path, j, es)
  {
    hide Passed, Fits, Skeleton, After;
    var before := events[..|events| - 1];
    assert before[..j] == events[..j] && before[..j + 1] == events[..j + 1];
  }

  lemma NodeAtFirst<W>(t: Tree, events: seq<Event<W>>, path: seq<nat>)
    requires Fits(Skeleton(t)) && Reaches(t, path)
    ensures NodeAt(t, events, path, 0) == At(t, path)
  {
    assert events[..0] == [];
  }

  lemma SegmentIsRun<W>(t: Tree, events: seq<Event<W>>, path: seq<nat>, j: nat, es: seq<Event<W>>)
    requires Fits(Skeleton(t)) && Reaches(t, path) && j < |events| && Segment(t, events, path, j, es)
    ensures NodeAt(t, events, path, j + 1) == After(NodeAt(t, events, path, j), es)
  {
    hide Passed, Fits, Skeleton, NodeAt, After;
    PassedIsRun(events[j].env, NodeAt(t, events, path, j), events[j].w, es, NodeAt(t, events, path, j + 1),
                WorldAfter(t, events, j));
  }

  ghost function Flat<T>(ss: seq<seq<T>>): seq<T>
    decreases |ss|
  {
    if ss == [] then [] else Flat(ss[..|ss| - 1]) + ss[|ss| - 1]
  }

  /** The segments, one after the other, are a run of the node that is at the path of the tree before event j. */
  lemma {:induction false} OwnRunIsRun<W>(t: Tree, events: seq<Event<W>>, path: seq<nat>, own: seq<seq<Event<W>>>,
                                          j: nat)
    requires Fits(Skeleton(t)) && Reaches(t, path) && OwnRun(t, events, path, own) && j <= |events|
    ensures Fits(Skeleton(At(t, path))) && NodeAt(t, events, path, j) == After(At(t, path), Flat(own[..j]))
    decreases j
  {
    hide Segment, Fits, Skeleton, Tick, Stop, NodeAt, At, Reaches;
    SameReach(t, t, path);
    NodeAtFirst(t, events, path);
    if j == 0 {
      assert own[..0] == [];
    } else {
      OwnRunIsRun(t, events, path, own, j - 1);
      SegmentIsRun(t, events, path, j - 1, own[j - 1]);
      AfterBoth(At(t, path), Flat(own[..j - 1]), own[j - 1]);
      assert own[..j][..j - 1] == own[..j - 1];
    }
  }

  /** Where in the run of the node the segment of event j begins. */
  ghost function From<T>(own: seq<seq<T>>, j: nat): nat
    requires j <= |own|
  {
    |Flat(own[..j])|
  }

  /** The event of the tree to which the node's k-th event belongs. */
  ghost function EventOf<T>(own: seq<seq<T>>, k: nat): (j: nat)
    requires k < |Flat(own)|
    ensures j < |own|
    decreases |own|
  {
    var n := |own| - 1;
    if k < |Flat(own[..n])| then EventOf(own[..n], k) else n
  }

  lemma {:induction false} FlatPrefix<T>(own: seq<seq<T>>, j: nat)
    requires j <= |own|
    ensures From(own, j) <= |Flat(own)| && Flat(own)[..From(own, j)] == Flat(own[..j])
    decreases |own|
  {
    if j == |own| {
      assert own[..j] == own;
    } else {
      FlatPrefix(own[..|own| - 1], j);
      assert own[..|own| - 1][..j] == own[..j];
    }
  }

  lemma {:induction false} InItsSegment<T>(own: seq<seq<T>>, k: nat)
    requires k < |Flat(own)|
    ensures var j := EventOf(own, k);
            && From(own, j) <= k < From(own, j + 1) == From(own, j) + |own[j]|
            && Flat(own)[k] == own[j][k - From(own, j)]
            && Flat(own)[..k] == Flat(own[..j]) + own[j][..k - From(own, j)]
    decreases |own|
  {
    var n := |own| - 1;
    var j := EventOf(own, k);
    assert own[..n + 1] == own;
    if k < |Flat(own[..n])| {
      InItsSegment(own[..n], k);
      assert own[..n][..j] == own[..j] && own[..n][..j + 1] == own[..j + 1];
      assert Flat(own)[..k] == Flat(own[..n])[..k];
    }
  }

  lemma {:induction false} FromGrows<T>(own: seq<seq<T>>, i: nat, j: nat)
    requires i <= j <= |own|
    ensures From(own, i) <= From(own, j)
    decreases j
  {
    if i == j {
    } else {
      FromGrows(own, i, j - 1);
      assert own[..j][..j - 1] == own[..j - 1];
    }
  }
}
