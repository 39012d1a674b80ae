/**
 What a Loop writes to its port, and what its child finds there, read off the world: over any number of rounds, and in
 any number of ticks, the items that arrive there are the head of the queue, then the next, and so on.
 */
module LoopWrites {
  import opened Wrappers
  import opened BehaviourTrees
  import opened TreeInvariant
  import opened NodeRuns
  import opened LoopFuel

  /** Something in the world holds every line that was written to a `value` port, and nothing else changes it. */
  ghost predicate Recorder<W(!new)>(env: Env<W>, record: W -> seq<(nat, Item)>) {
    && (forall id, item, w :: record(env.write(id, item, w)) == record(w) + [(id, item)])
    && (forall id, w :: record(env.initialise(id, w)) == record(w))
    && (forall id, w :: record(env.update(id, w).1) == record(w))
    && (forall id, s, w :: record(env.terminate(id, s, w)) == record(w))
  }

  /** The items among these lines that are of one node. */
  ghost function Of(id: nat, lines: seq<(nat, Item)>): seq<Item> {
    if lines == [] then []
    else
      var last := lines[|lines| - 1];
      Of(id, lines[..|lines| - 1]) + if last.0 == id then [last.1] else []
  }

  /** What a node has written so far. */
  ghost function Written<W>(record: W -> seq<(nat, Item)>, id: nat, w: W): seq<Item> {
    Of(id, record(w))
  }

  lemma OneLineMore(id: nat, lines: seq<(nat, Item)>, line: (nat, Item))
    ensures Of(id, lines + [line]) == Of(id, lines) + if line.0 == id then [line.1] else []
  {
    assert (lines + [line])[..|lines|] == lines;
  }

  // ---------------------------------------------------------------- others do not write here

  lemma {:induction false} OthersMoves<W(!new)>(env: Env<W>, record: W -> seq<(nat, Item)>, id: nat, w: W, moves: seq<Move>)
    requires Recorder(env, record) && forall m | m in moves :: m.id != id
    ensures Of(id, record(Moved(env, w, moves))) == Of(id, record(w))
    decreases |moves|
  {
    if moves == [] {
    } else {
      var m := moves[0];
      if m.Writes? {
        OneLineMore(id, record(w), (m.id, m.item));
      }
      OthersMoves(env, record, id, MovedBy(env, w, m), moves[1..]);
    }
  }

  /** The child, which the node t is not part of. */
  ghost predicate Apart(t: Tree) {
    |t.children| == 1 && !Has(Skeleton(t.children[0]), t.id)
  }

  lemma ChildWrites<W(!new)>(env: Env<W>, record: W -> seq<(nat, Item)>, t: Tree, a: W, b: W)
    requires Recorder(env, record) && Apart(t) && LaterBy(env, Skeleton(t.children[0]), a, b)
    ensures Written(record, t.id, b) == Written(record, t.id, a)
  {
    hide Skeleton, Has, Of, Recorder;
    var moves :| MovesOf(Skeleton(t.children[0]), moves) && Moved(env, a, moves) == b;
    OthersMoves(env, record, t.id, a, moves);
  }

  lemma RestartWrites<W(!new)>(env: Env<W>, record: W -> seq<(nat, Item)>, t: Tree, w: W)
    requires Recorder(env, record) && CanLoop(t) && Apart(t)
    ensures Written(record, t.id, RestartChild(env, t, w).w) == Written(record, t.id, w)
  {
    hide Recorder, Written, Has, Stop;
    var c := t.children[0];
    assert Skeleton(t).children[0] == Skeleton(c);
    if c.status != Invalid {
      hide Leads, LaterBy;
      var es := StopLeads(env, c, Invalid, w, |c.children|);
      OnlyLater(env, c, w, Stop(env, c, Invalid, w), |c.children|, es);
      ChildWrites(env, record, t, w, Stop(env, c, Invalid, w).w);
    }
  }

  lemma TickWrites<W(!new)>(env: Env<W>, record: W -> seq<(nat, Item)>, t: Tree, w: W)
    requires Recorder(env, record) && CanLoop(t) && Apart(t)
    ensures Written(record, t.id, TickChild(env, t, 0, w).w) == Written(record, t.id, w)
  {
    hide Recorder, Written, Has, Tick;
    var c := t.children[0];
    assert Skeleton(t).children[0] == Skeleton(c);
    hide Leads, LaterBy;
    var es := TickLeads(env, c, w, |c.children|);
    OnlyLater(env, c, w, Tick(env, c, w), |c.children|, es);
    ChildWrites(env, record, t, w, Tick(env, c, w).w);
  }

  lemma StaysApart(a: Tree, b: Tree)
    requires CanLoop(a) && Apart(a) && Skeleton(a) == Skeleton(b)
    ensures CanLoop(b) && Apart(b) && a.id == b.id && a.kind == b.kind
  {
    SkeletonIsShape(a, b);
    assert Skeleton(a).children[0] == Skeleton(a.children[0]) && Skeleton(b).children[0] == Skeleton(b.children[0]);
  }

  // -------------------------------------------------------------------------- one round

  /** What a round is to write: the head of the queue, when the child is not in the middle of something. */
  ghost function Due(t: Tree): seq<Item>
    requires |t.children| == 1
  {
    if t.kind.Loop? && t.children[0].status != Running && t.mem.queue != [] then [t.mem.queue[0]] else []
  }

  lemma FinishWrites<W(!new)>(env: Env<W>, record: W -> seq<(nat, Item)>, t: Tree, s: Ended, w: W)
    requires Recorder(env, record) && CanLoop(t)
    ensures Written(record, t.id, Finish(env, t, s, w).w) == Written(record, t.id, w)
    ensures Finish(env, t, s, w).t.children == t.children
  {
    hide Tick;
    if s != Running {
      assert Stop(env, t, s, w) == Run(t.(status := s), env.terminate(t.id, s, w));
    }
  }

  /** A round in which an item is due: it is written, then the child starts afresh, then the child is ticked. */
  lemma RoundTakes<W(!new)>(env: Env<W>, record: W -> seq<(nat, Item)>, t: Tree, w: W)
    returns (c: Tree, begin: W)
    requires Recorder(env, record) && CanLoop(t) && Apart(t) && Due(t) != []
    ensures c.status == Invalid && Skeleton(c) == Skeleton(t.children[0]) && Fits(Skeleton(c))
    ensures Written(record, t.id, begin) == Written(record, t.id, w) + [t.mem.queue[0]]
    ensures var r := NextRound(env, t, w);
            && r.t.children[0] == Tick(env, c, begin).t
            && Written(record, t.id, r.w) == Written(record, t.id, begin)
  {
    hide Recorder, Written, Apart, Tick, Stop, Fits;
    WriteIsRecorded(env, record, t, w);
    var t1 := t.(mem := t.mem.(queue := t.mem.queue[1..], started := true));
    assert Skeleton(t1) == Skeleton(t);
    StaysApart(t, t1);
    var w1 := env.write(t.id, t.mem.queue[0], w);
    RestartWrites(env, record, t1, w1);
    var p := RestartChild(env, t1, w1);
    assert NextItem(env, t, w) == p;
    StaysApart(t, p.t);
    c, begin := p.t.children[0], p.w;
    assert Skeleton(t).children[0] == Skeleton(t.children[0]) && Skeleton(p.t).children[0] == Skeleton(c);
    FitsBelow(t);
    TickWrites(env, record, p.t, p.w);
    var q := TickChild(env, p.t, 0, p.w);
    StaysApart(t, q.t);
    LoopEndsRound(env, record, q.t, q.w);
  }

  lemma FitsBelow(t: Tree)
    requires Fits(Skeleton(t)) && |t.children| == 1
    ensures Fits(Skeleton(t.children[0]))
  {
    assert Skeleton(t).children[0] == Skeleton(t.children[0]);
  }

  lemma WriteIsRecorded<W(!new)>(env: Env<W>, record: W -> seq<(nat, Item)>, t: Tree, w: W)
    requires Recorder(env, record) && t.mem.queue != []
    ensures Written(record, t.id, env.write(t.id, t.mem.queue[0], w)) == Written(record, t.id, w) + [t.mem.queue[0]]
  {
    OneLineMore(t.id, record(w), (t.id, t.mem.queue[0]));
  }

  /** What a Loop does after its child's tick touches neither its child nor its port. */
  lemma LoopEndsRound<W(!new)>(env: Env<W>, record: W -> seq<(nat, Item)>, u: Tree, w: W)
    requires Recorder(env, record) && CanLoop(u) && u.kind.Loop? && u.children[0].status != Invalid
    ensures var s := AfterChild(env, u, w);
            && s.t == u && s.w == w
            && (s.verdict.End? ==> var r := Finish(env, u, s.verdict.status, w);
                                   r.t.children == u.children && Written(record, u.id, r.w) == Written(record, u.id, w))
  {
    hide Recorder, Written, Finish;
    var s := AfterChild(env, u, w);
    if s.verdict.End? {
      FinishWrites(env, record, u, s.verdict.status, w);
    }
  }

  /** Any other round of a looping decorator writes nothing of its own. */
  lemma RoundLeaves<W(!new)>(env: Env<W>, record: W -> seq<(nat, Item)>, t: Tree, w: W)
    requires Recorder(env, record) && CanLoop(t) && Apart(t) && Due(t) == []
    ensures Written(record, t.id, NextRound(env, t, w).w) == Written(record, t.id, w)
  {
    hide Recorder, Written, Apart, Tick, TickChild, Stop, Fits, Finish, RestartChild;
    var s := Round(env, t, w);
    if t.kind.Loop? && t.children[0].status != Running {
      FinishWrites(env, record, t, s.verdict.status, w);
    } else {
      TickWrites(env, record, t, w);
      var q := TickChild(env, t, 0, w);
      StaysApart(t, q.t);
      var more := q.t.(mem := q.t.mem.(count := q.t.mem.count + 1));
      assert Skeleton(more) == Skeleton(q.t);
      StaysApart(q.t, more);
      RestartWrites(env, record, more, q.w);
      RestartWrites(env, record, q.t, q.w);
      assert s.w == q.w || s.w == RestartChild(env, more, q.w).w || s.w == RestartChild(env, q.t, q.w).w;
      StaysApart(t, s.t);
      if s.verdict.End? {
        FinishWrites(env, record, s.t, s.verdict.status, s.w);
      }
    }
  }

  // ------------------------------------------------------------------------- any number of rounds

  /** What a looping decorator has written after n rounds is what it had written before, and `Items`. */
  lemma {:induction false} LoopWritesItsItems<W(!new)>(env: Env<W>, record: W -> seq<(nat, Item)>, t: Tree, n: nat, w: W)
    requires Recorder(env, record) && CanLoop(t) && Apart(t)
    ensures Written(record, t.id, Unbounded(env, t, n, w).w) == Written(record, t.id, w) + Items(env, t, n, w)
    decreases n
  {
    hide Recorder, Written, Apart, NextRound, CanLoop;
    if n == 0 || t.status != Running {
    } else {
      var r := NextRound(env, t, w);
      StaysApart(t, r.t);
      LoopWritesItsItems(env, record, r.t, n - 1, r.w);
      OneRoundMore(env, t, n, w);
      if Due(t) == [] {
        RoundLeaves(env, record, t, w);
      } else {
        var c, begin := RoundTakes(env, record, t, w);
      }
    }
  }

  lemma OneRoundMore<W>(env: Env<W>, t: Tree, n: nat, w: W)
    requires CanLoop(t) && t.status == Running && n > 0
    ensures var r := NextRound(env, t, w);
            && Unbounded(env, t, n, w) == Unbounded(env, r.t, n - 1, r.w)
            && Items(env, t, n, w) == Due(t) + Items(env, r.t, n - 1, r.w)
  {
    hide NextRound, CanLoop;
  }

  // ---------------------------------------------------------------------------- whole activations

  /**
   A Loop is started by a tick and ticked m times more, each tick with its bound on rounds. What it has written in this
   activation, followed by what is left in its queue, is the queue its port had at the start; and once it has
   succeeded nothing is left.
   */
  lemma ActivationWritesTheQueue<W(!new)>(env: Env<W>, record: W -> seq<(nat, Item)>, t: Tree, m: nat, w: W)
    requires Recorder(env, record) && CanLoop(t) && Apart(t) && t.kind.Loop? && t.status != Running && Tidy(t)
    requires env.items(t.id, env.initialise(t.id, w)).Some?
    ensures var queue := env.items(t.id, env.initialise(t.id, w)).value;
            var first := Tick(env, t, w);
            && CanLoop(first.t)
            && var r := Ticks(env, first.t, MAX_SYNC_ITERATIONS, m, first.w);
               && Written(record, t.id, r.w) + r.t.mem.queue == Written(record, t.id, w) + queue
               && (r.t.status == Success && queue != [] ==>
                     Written(record, t.id, r.w) == Written(record, t.id, w) + queue)
  {
    hide Recorder, Written, Apart, NextRound, Fits, DoStep;
    var w1 := env.initialise(t.id, w);
    var queue := env.items(t.id, w1).value;
    var t1 := t.(mem := t.mem.(queue := queue, ifEmpty := env.ifEmpty(t.id, w1), started := false), status := Running);
    assert Skeleton(t1) == Skeleton(t);
    StaysApart(t, t1);
    LoopTakesTheWholeQueue(env, t, MAX_SYNC_ITERATIONS, 0, w);
    var first := Tick(env, t, w);
    assert first == TickDecorator(env, t1, MAX_SYNC_ITERATIONS, w1);
    SkeletonIsShape(first.t, t);
    var n := TicksAreRounds(env, t1, MAX_SYNC_ITERATIONS, m + 1, w1);
    assert Ticks(env, t1, MAX_SYNC_ITERATIONS, m + 1, w1) == Ticks(env, first.t, MAX_SYNC_ITERATIONS, m, first.w);
    LoopConservesItems(env, t1, n, w1);
    LoopWritesItsItems(env, record, t1, n, w1);
    StartIsNoWrite(env, record, t, w);
    var r := Unbounded(env, t1, n, w1);
    JoinWrites(Written(record, t.id, w), Items(env, t1, n, w1), r.t.mem.queue, queue);
  }

  lemma StartIsNoWrite<W(!new)>(env: Env<W>, record: W -> seq<(nat, Item)>, t: Tree, w: W)
    requires Recorder(env, record)
    ensures Written(record, t.id, env.initialise(t.id, w)) == Written(record, t.id, w)
  {
  }

  lemma JoinWrites(before: seq<Item>, items: seq<Item>, left: seq<Item>, queue: seq<Item>)
    requires items + left == queue
    ensures (before + items) + left == before + queue && (left == [] ==> items == queue)
  {
    assert (before + items) + left == before + (items + left);
  }

  /** A Loop that is started with nothing to do answers `if_empty` and does not touch its child. */
  lemma EmptyActivationAnswers<W>(env: Env<W>, t: Tree, w: W)
    requires CanLoop(t) && t.kind.Loop? && t.status != Running && Tidy(t)
    requires env.items(t.id, env.initialise(t.id, w)) == Some([])
    ensures Tick(env, t, w).t.status == env.ifEmpty(t.id, env.initialise(t.id, w))
    ensures Tick(env, t, w).t.children == t.children
  {
    var w1 := env.initialise(t.id, w);
    var mem := Configure(env, t, w1).value;
    var u := t.(mem := mem);
    assert Skeleton(u) == Skeleton(t);
    OneEmptyRound(env, u, w1);
    hide Round, Rounds, TickChild, HaltKids;
    assert DoStep(env, u, MAX_SYNC_ITERATIONS, w1) == Step(u, w1, End(mem.ifEmpty));
  }

  lemma OneEmptyRound<W>(env: Env<W>, t: Tree, w: W)
    requires CanLoop(t) && t.kind.Loop? && t.mem.queue == [] && !t.mem.started && t.children[0].status != Running
    ensures Rounds(env, t, MAX_SYNC_ITERATIONS, w) == Step(t, w, End(t.mem.ifEmpty))
  {
    assert Round(env, t, w) == Step(t, w, End(t.mem.ifEmpty));
    hide Round;
  }
}
