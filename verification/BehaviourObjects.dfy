/**
 The node objects: each keeps a status and a few fields and updates them in place while it ticks and stops its
 children. Every method is proved to do to the objects what the functions of BehaviourTrees do to their model.
 */
module BehaviourObjects {
  import opened Wrappers
  import BT = BehaviourTrees

  class Behaviour {
    const id: nat
    const kind: BT.Kind
    const children: seq<Behaviour>
    ghost const repr: set<Behaviour>

    var status: BT.Status
    var mem: BT.Memory

    /** The nodes form a tree; since children never change, neither does this. */
    ghost predicate Valid()
      decreases repr
    {
      && this in repr
      && BT.ArityOk(kind, |children|)
      && (forall i | 0 <= i < |children| ::
            children[i].repr < repr && this !in children[i].repr && children[i].Valid())
      && (forall i, j | 0 <= i < j < |children| :: children[i].repr !! children[j].repr)
    }

    /** The state of this node and everything below it. */
    ghost function Model(): (t: BT.Tree)
      requires Valid()
      reads repr
      ensures BT.Fits(BT.Skeleton(t)) && |t.children| == |children|
      decreases repr
    {
      BT.Node(id, kind, status, mem,
              seq(|children|, i requires 0 <= i < |children| && Valid() reads repr => children[i].Model()))
    }

    constructor (id: nat, kind: BT.Kind, children: seq<Behaviour>)
      requires BT.ArityOk(kind, |children|)
      requires forall i | 0 <= i < |children| :: children[i].Valid()
      requires forall i, j | 0 <= i < j < |children| :: children[i].repr !! children[j].repr
      ensures Valid() && fresh(repr - set c, x | c in children && x in c.repr :: x)
      ensures this.id == id && this.kind == kind && this.children == children
      ensures status == BT.Invalid && mem == BT.BLANK
    {
      this.id, this.kind, this.children := id, kind, children;
      this.status, this.mem := BT.Invalid, BT.BLANK;
      this.repr := {this} + set c, x | c in children && x in c.repr :: x;
    }

    /** When only the subtree of child i was touched, only that child of the model has changed. */
    twostate lemma OnlyChild(i: nat)
      requires Valid() && i < |children|
      requires unchanged(repr - children[i].repr)
      ensures Model() == old(Model()).(children := old(Model()).children[i := children[i].Model()])
    {
      forall j | 0 <= j < |children| && j != i
        ensures children[j].Model() == old(children[j].Model())
      {
        assert unchanged(children[j].repr);
      }
      assert Model().children == old(Model()).children[i := children[i].Model()];
    }

    /** Fields of this node itself are no part of its children's models. */
    twostate lemma OnlySelf()
      requires Valid()
      requires unchanged(repr - {this})
      ensures Model() == old(Model()).(status := status, mem := mem)
    {
      forall j | 0 <= j < |children|
        ensures children[j].Model() == old(children[j].Model())
      {
        assert unchanged(children[j].repr);
      }
      assert Model().children == old(Model()).children;
    }

    /** Sets the status without stopping anything. */
    method SetStatus(s: BT.Status)
      requires Valid()
      modifies this`status
      ensures Model() == old(Model()).(status := s)
    {
      status := s;
      OnlySelf();
    }

    /** Updates the fields kept between ticks. */
    method SetMemory(m: BT.Memory)
      requires Valid()
      modifies this`mem
      ensures Model() == old(Model()).(mem := m) && mem == m
    {
      mem := m;
      OnlySelf();
    }

    method SetIndex(i: nat)
      requires Valid()
      modifies this`mem
      ensures Model() == old(Model()).(mem := old(mem).(index := i)) && mem == old(mem).(index := i)
    {
      SetMemory(mem.(index := i));
    }

    // -------------------------------------------------------------- stopping

    method Stop<W>(env: BT.Env<W>, s: BT.Status, w: W) returns (w': W)
      requires Valid()
      modifies repr
      ensures BT.Run(Model(), w') == BT.Stop(env, old(Model()), s, w)
      decreases repr, 2
    {
      w' := w;
      if kind.CountingParallel? {
        w' := HaltKids(env, true, 0, w');
      }
      if s == BT.Invalid {
        w' := HaltKids(env, false, 0, w');
      }
      if kind.SequenceWithMemory? && s == BT.Invalid {
        SetIndex(0);
      }
      w' := env.terminate(id, s, w');
      SetStatus(s);
    }

    /** Stops the children from `first` on that are RUNNING, or merely not INVALID. */
    method HaltKids<W>(env: BT.Env<W>, onlyRunning: bool, first: nat, w: W) returns (w': W)
      requires Valid()
      modifies repr
      ensures BT.Run(Model(), w') == BT.HaltKids(env, old(Model()), onlyRunning, first, w)
      decreases repr, 1
    {
      hide BT.Stop, BT.Fits, BT.Skeleton, BT.ArityOk;
      w' := w;
      var i := first;
      while i < |children|
        invariant BT.HaltKids(env, Model(), onlyRunning, i, w') == BT.HaltKids(env, old(Model()), onlyRunning, first, w)
      {
        assert Model().children[i] == children[i].Model();
        if if onlyRunning then children[i].status == BT.Running else children[i].status != BT.Invalid {
          w' := StopChild(env, i, w');
        }
        i := i + 1;
      }
    }

    method StopChild<W>(env: BT.Env<W>, i: nat, w: W) returns (w': W)
      requires Valid() && i < |children|
      modifies children[i].repr
      ensures BT.Run(Model(), w') == BT.HaltChild(env, old(Model()), i, w)
      decreases repr, 0
    {
      assert Model().children[i] == children[i].Model();
      w' := children[i].Stop(env, BT.Invalid, w);
      OnlyChild(i);
    }

    method RestartChild<W>(env: BT.Env<W>, w: W) returns (w': W)
      requires Valid() && |children| == 1
      modifies children[0].repr
      ensures BT.Run(Model(), w') == BT.RestartChild(env, old(Model()), w)
      decreases repr, 1
    {
      w' := w;
      assert Model().children[0] == children[0].Model();
      if children[0].status != BT.Invalid {
        w' := StopChild(env, 0, w);
      }
    }

    method Finish<W>(env: BT.Env<W>, s: BT.Ended, w: W) returns (w': W)
      requires Valid()
      modifies repr
      ensures BT.Run(Model(), w') == BT.Finish(env, old(Model()), s, w)
      decreases repr, 3
    {
      w' := w;
      if s != BT.Running {
        w' := Stop(env, s, w);
      }
      SetStatus(s);
    }

    // --------------------------------------------------------------- ticking

    method Tick<W>(env: BT.Env<W>, w: W) returns (w': W)
      requires Valid()
      modifies repr
      ensures BT.Run(Model(), w') == BT.Tick(env, old(Model()), w)
      decreases repr, 10
    {
      match kind
      case Leaf => w' := TickLeaf(env, w);
      case Inverter | ForceSuccess | ForceFailure | SubTree => w' := TickPlain(env, w);
      case Conditional(_) => w' := TickConditional(env, w);
      case Repeat | Retry | KeepRunning | Loop | Delay | Timeout | RunOnce | Precondition | SkipUnlessUpdated
         | WaitValueUpdate => w' := TickDecorator(env, w);
      case _ => w' := TickControl(env, w);
    }

    method TickControl<W>(env: BT.Env<W>, w: W) returns (w': W)
      requires Valid() && BT.IsControl(kind)
      modifies repr
      ensures BT.Run(Model(), w') == BT.Tick(env, old(Model()), w)
      decreases repr, 9
    {
      match kind
      case Sequence(memory) => w' := TickSequence(env, memory, w);
      case Selector(memory) => w' := TickSelector(env, memory, w);
      case SequenceWithMemory => w' := TickSequenceWithMemory(env, w);
      case ParallelAll => w' := TickParallelAll(env, w);
      case CountingParallel(sc, fc) => w' := TickCounting(env, sc, fc, w);
      case IfThenElse => w' := TickIfThenElse(env, w);
      case WhileDoElse => w' := TickWhileDoElse(env, w);
      case Switch(cases) => w' := TickSwitch(env, cases, w);
    }

    method TickLeaf<W>(env: BT.Env<W>, w: W) returns (w': W)
      requires Valid()
      modifies repr
      ensures BT.Run(Model(), w') == BT.TickLeaf(env, old(Model()), w)
      decreases repr, 8
    {
      var (s, w1) := env.update(id, Begin(env, w));
      w' := Finish(env, s, w1);
    }

    method TickChild<W>(env: BT.Env<W>, i: nat, w: W) returns (w': W)
      requires Valid() && i < |children|
      modifies children[i].repr
      ensures BT.Run(Model(), w') == BT.TickChild(env, old(Model()), i, w)
      ensures children[i].status == Model().children[i].status != BT.Invalid
      decreases repr, 0
    {
      assert Model().children[i] == children[i].Model();
      w' := children[i].Tick(env, w);
      OnlyChild(i);
    }

    function Begin<W>(env: BT.Env<W>, w: W): W
      reads this
    {
      if status != BT.Running then env.initialise(id, w) else w
    }

    // ------------------------------------------------------------ decorators

    method TickPlain<W>(env: BT.Env<W>, w: W) returns (w': W)
      requires Valid() && |children| == 1
      modifies repr
      ensures BT.Run(Model(), w') == BT.TickPlain(env, old(Model()), w)
      decreases repr, 4
    {
      hide BT.Tick, BT.TickChild;
      w' := TickChild(env, 0, Begin(env, w));
      w' := Finish(env, BT.Mapped(kind, children[0].status), w');
    }

    method TickConditional<W>(env: BT.Env<W>, w: W) returns (w': W)
      requires Valid() && |children| == 1 && kind.Conditional?
      modifies repr
      ensures BT.Run(Model(), w') == BT.TickConditional(env, old(Model()), w)
      decreases repr, 5
    {
      hide BT.Tick;
      var gates := [(BT.SkipIf, BT.Success), (BT.FailureIf, BT.Failure), (BT.SuccessIf, BT.Success)];
      var i := 0;
      var forced: Option<BT.Ended> := None;
      while i < |gates| && forced.None?
        invariant 0 <= i <= |gates|
        invariant forced.Some? ==> forced == BT.Forced(env, Model(), w)
        invariant forced.None? ==> forall j | 0 <= j < i ::
                    gates[j].0 in kind.conditions ==> !env.holds(id, gates[j].0, w)
      {
        if gates[i].0 in kind.conditions && env.holds(id, gates[i].0, w) {
          assert forall j | 0 <= j < i :: gates[j].0 in kind.conditions ==> !env.holds(id, gates[j].0, w);
          assert gates[0].0 == BT.SkipIf && gates[1].0 == BT.FailureIf && gates[2].0 == BT.SuccessIf;
          forced := Some(gates[i].1);
        }
        i := i + 1;
      }
      if forced.None? {
        assert gates[0].0 == BT.SkipIf && gates[1].0 == BT.FailureIf && gates[2].0 == BT.SuccessIf;
        if BT.While in kind.conditions && !env.holds(id, BT.While, w) {
          forced := Some(BT.Failure);
        }
      }
      assert forced == BT.Forced(env, Model(), w);
      match forced
      case Some(s) =>
        w' := RestartChild(env, w);
        w' := Stop(env, s, w');
      case None => w' := TickPlain(env, w);
    }

    method TickDecorator<W>(env: BT.Env<W>, w: W) returns (w': W)
      requires Valid() && |children| == 1
      modifies repr
      ensures BT.Run(Model(), w') == BT.TickDecorator(env, old(Model()), BT.MAX_SYNC_ITERATIONS, w)
      decreases repr, 8
    {
      hide BT.Tick;
      w' := w;
      if status != BT.Running {
        w' := env.initialise(id, w);
        var configured := Configure(env, w');
        if !configured {
          w' := Finish(env, BT.Failure, w');
          return;
        }
      }
      var s;
      w', s := DoStep(env, w');
      w' := Finish(env, s, w');
    }

    method Configure<W>(env: BT.Env<W>, w: W) returns (ok: bool)
      requires Valid()
      modifies this`mem
      ensures BT.Configure(env, old(Model()), w) == if ok then Some(mem) else None
      ensures Model() == old(Model()).(mem := mem) && (!ok ==> mem == old(mem))
    {
      ok := true;
      match kind
      case Repeat | Retry =>
        var n := env.number(id, w);
        if n.None? { return false; }
        SetMemory(mem.(limit := n.value, count := 0));
      case Delay | Timeout =>
        var ms := env.number(id, w);
        if ms.None? { return false; }
        SetMemory(mem.(until := env.now(w) + BT.Max(ms.value, 0)));
      case Loop =>
        var items := env.items(id, w);
        if items.None? { return false; }
        SetMemory(mem.(queue := items.value, ifEmpty := env.ifEmpty(id, w), started := false));
      case RunOnce => SetMemory(mem.(thenSkip := env.thenSkip(id, w)));
      case Precondition =>
        var otherwise := env.otherwise(id, w);
        var allowed := env.allowed(id, w);
        if otherwise.None? || allowed.None? { return false; }
        SetMemory(mem.(otherwise := otherwise.value, allowed := allowed.value));
      case SkipUnlessUpdated =>
        var version := env.version(id, w);
        SetMemory(mem.(proceed := version != mem.version, version := version));
      case WaitValueUpdate => SetMemory(mem.(version := env.version(id, w), proceed := false));
      case _ =>
    }

    method DoStep<W>(env: BT.Env<W>, w: W) returns (w': W, s: BT.Ended)
      requires Valid() && |children| == 1
      modifies repr
      ensures BT.Step(Model(), w', BT.End(s)) == BT.DoStep(env, old(Model()), BT.MAX_SYNC_ITERATIONS, w)
      decreases repr, 7
    {
      hide BT.Tick, BT.TickChild, BT.Rounds, BT.RestartChild, BT.PassThrough, BT.Fits, BT.Skeleton, BT.ArityOk, BT.Arity;
      w' := w;
      match kind
      case Repeat | Retry | KeepRunning | Loop => w', s := Rounds(env, w);
      case Delay =>
        if env.now(w) < mem.until { return w, BT.Running; }
        w', s := PassThrough(env, w);
      case Timeout =>
        w' := TickChild(env, 0, w);
        s := children[0].status;
        if s == BT.Running && env.now(w') >= mem.until {
          w' := RestartChild(env, w');
          s := BT.Failure;
        }
      case RunOnce =>
        if mem.result.Some? { return w, if mem.thenSkip then BT.Success else mem.result.value; }
        w' := TickChild(env, 0, w);
        s := children[0].status;
        if s != BT.Running {
          SetMemory(mem.(result := Some(s)));
        }
      case Precondition =>
        if !mem.allowed { return w, mem.otherwise; }
        w', s := PassThrough(env, w);
      case SkipUnlessUpdated =>
        if !mem.proceed { return w, BT.Success; }
        w', s := PassThrough(env, w);
      case WaitValueUpdate =>
        if !mem.proceed {
          if env.version(id, w) == mem.version { return w, BT.Running; }
          SetMemory(mem.(proceed := true));
        }
        w', s := PassThrough(env, w);
      case _ => w', s := PassThrough(env, w);
    }

    method PassThrough<W>(env: BT.Env<W>, w: W) returns (w': W, s: BT.Ended)
      requires Valid() && |children| == 1
      modifies children[0].repr
      ensures BT.Step(Model(), w', BT.End(s)) == BT.PassThrough(env, old(Model()), w)
      decreases repr, 4
    {
      w' := TickChild(env, 0, w);
      s := children[0].status;
    }

    /** The synchronous loop of Repeat, RetryUntilSuccessful, KeepRunningUntilFailure and Loop. */
    method Rounds<W>(env: BT.Env<W>, w: W) returns (w': W, s: BT.Ended)
      requires Valid() && |children| == 1
      modifies repr
      ensures BT.Step(Model(), w', BT.End(s)) == BT.Rounds(env, old(Model()), BT.MAX_SYNC_ITERATIONS, w)
      decreases repr, 6
    {
      hide BT.Tick;
      w' := w;
      var n: nat := BT.MAX_SYNC_ITERATIONS;
      while n > 0
        invariant BT.Rounds(env, Model(), n, w') == BT.Rounds(env, old(Model()), BT.MAX_SYNC_ITERATIONS, w)
      {
        var verdict;
        w', verdict := Round(env, w');
        n := n - 1;
        if verdict.End? {
          s := verdict.status;
          return;
        }
      }
      s := BT.Running;
    }

    method Round<W>(env: BT.Env<W>, w: W) returns (w': W, verdict: BT.Verdict)
      requires Valid() && |children| == 1
      modifies repr
      ensures BT.Step(Model(), w', verdict) == BT.Round(env, old(Model()), w)
      decreases repr, 5
    {
      hide BT.Tick, BT.TickChild;
      w' := w;
      assert Model().children[0] == children[0].Model();
      if kind.Loop? && children[0].status != BT.Running {
        if mem.queue == [] {
          return w, BT.End(if mem.started then BT.Success else mem.ifEmpty);
        }
        w' := NextItem(env, w);
      }
      w' := TickChild(env, 0, w');
      w', verdict := AfterChild(env, w');
    }

    method NextItem<W>(env: BT.Env<W>, w: W) returns (w': W)
      requires Valid() && |children| == 1 && mem.queue != []
      modifies repr
      ensures BT.Run(Model(), w') == BT.NextItem(env, old(Model()), w)
      decreases repr, 2
    {
      var item := mem.queue[0];
      SetMemory(mem.(queue := mem.queue[1..], started := true));
      w' := env.write(id, item, w);
      w' := RestartChild(env, w');
    }

    method AfterChild<W>(env: BT.Env<W>, w: W) returns (w': W, verdict: BT.Verdict)
      requires Valid() && |children| == 1 && children[0].status != BT.Invalid
      modifies repr
      ensures old(Model()).children[0].status != BT.Invalid
      ensures BT.Step(Model(), w', verdict) == BT.AfterChild(env, old(Model()), w)
      decreases repr, 2
    {
      assert Model().children[0] == children[0].Model();
      w' := w;
      var child := children[0].status;
      if child != (if kind.Retry? then BT.Failure else BT.Success) {
        return w, BT.End(child);
      }
      if kind.Loop? {
        return w, BT.Again;
      }
      if !kind.KeepRunning? {
        SetMemory(mem.(count := mem.count + 1));
        if 0 <= mem.limit <= mem.count {
          return w, BT.End(child);
        }
      }
      w' := RestartChild(env, w);
      verdict := BT.Again;
    }

    // -------------------------------------------------------------- controls

    method TickSequence<W>(env: BT.Env<W>, memory: bool, w: W) returns (w': W)
      requires Valid()
      modifies repr
      ensures BT.Run(Model(), w') == BT.TickSequence(env, old(Model()), memory, w)
      decreases repr, 8
    {
      hide BT.Tick;
      w' := w;
      var i: nat := 0;
      if status != BT.Running {
        SetIndex(0);
        w' := HaltKids(env, false, 0, w');
        w' := env.initialise(id, w');
      } else if memory {
        i := mem.index;
      } else {
        SetIndex(0);
      }
      w' := SequenceFrom(env, memory, i, w');
    }

    method SequenceFrom<W>(env: BT.Env<W>, memory: bool, first: nat, w: W) returns (w': W)
      requires Valid()
      modifies repr
      ensures BT.Run(Model(), w') == BT.SequenceFrom(env, old(Model()), memory, first, w)
      decreases repr, 6
    {
      hide BT.Tick, BT.TickChild, BT.HaltKids, BT.Finish, BT.Fits, BT.Skeleton, BT.ArityOk;
      w' := w;
      var i := first;
      while i < |children|
        invariant BT.SequenceFrom(env, Model(), memory, i, w') == BT.SequenceFrom(env, old(Model()), memory, first, w)
      {
        ghost var t, wi := Model(), w';
        w' := TickChild(env, i, w');
        var s := children[i].status;
        if s != BT.Success {
          if !memory {
            w' := HaltKids(env, false, i + 1, w');
          }
          SetStatus(s);
          return;
        }
        if i + 1 < |children| {
          SetIndex(i + 1);
        }
        assert BT.SequenceFrom(env, t, memory, i, wi) == BT.SequenceFrom(env, Model(), memory, i + 1, w');
        i := i + 1;
      }
      w' := Finish(env, BT.Success, w');
    }

    method TickSelector<W>(env: BT.Env<W>, memory: bool, w: W) returns (w': W)
      requires Valid()
      modifies repr
      ensures BT.Run(Model(), w') == BT.TickSelector(env, old(Model()), memory, w)
      decreases repr, 8
    {
      hide BT.Tick;
      w' := Begin(env, w);
      if status != BT.Running {
        SetIndex(0);
      }
      if children == [] {
        assert old(Model()).children == [];
        w' := Finish(env, BT.Failure, w');
        return;
      }
      assert old(Model()).children != [];
      var previous := mem.index;
      var i: nat := 0;
      if memory {
        w' := StopBefore(env, w');
        i := previous;
      }
      w' := SelectorFrom(env, i, previous, w');
    }

    method SelectorFrom<W>(env: BT.Env<W>, first: nat, previous: nat, w: W) returns (w': W)
      requires Valid() && children != []
      modifies repr
      ensures old(Model()).children != []
      ensures BT.Run(Model(), w') == BT.SelectorFrom(env, old(Model()), first, previous, w)
      decreases repr, 6
    {
      hide BT.Tick, BT.TickChild, BT.HaltKids;
      w' := w;
      var i := first;
      assert |Model().children| == |children|;
      while i < |children|
        invariant |Model().children| == |children|
        invariant BT.SelectorFrom(env, Model(), i, previous, w')
               == BT.SelectorFrom(env, old(Model()), first, previous, w)
      {
        w' := TickChild(env, i, w');
        var s := children[i].status;
        if s == BT.Running || s == BT.Success {
          SetIndex(i);
          SetStatus(s);
          if previous != i {
            w' := HaltKids(env, false, i + 1, w');
          }
          return;
        }
        i := i + 1;
      }
      SetStatus(BT.Failure);
      SetIndex(|children| - 1);
    }

    method StopBefore<W>(env: BT.Env<W>, w: W) returns (w': W)
      requires Valid()
      modifies repr
      ensures BT.Run(Model(), w') == BT.StopBefore(env, old(Model()), 0, w)
      ensures mem == old(mem)
      decreases repr, 1
    {
      hide BT.Tick;
      w' := w;
      var i: nat := 0;
      while i < |children| && i < mem.index
        invariant mem == old(mem)
        invariant BT.StopBefore(env, Model(), i, w') == BT.StopBefore(env, old(Model()), 0, w)
      {
        w' := StopChild(env, i, w');
        i := i + 1;
      }
    }

    method TickSequenceWithMemory<W>(env: BT.Env<W>, w: W) returns (w': W)
      requires Valid()
      modifies repr
      ensures BT.Run(Model(), w') == BT.MemoryFrom(env, old(Model()), BT.Begin(env, old(Model()), w))
      decreases repr, 8
    {
      hide BT.Tick, BT.TickChild, BT.Finish, BT.Fits, BT.Skeleton, BT.ArityOk, BT.MemoryFrom;
      w' := Begin(env, w);
      ghost var w0 := w';
      while mem.index < |children|
        invariant BT.MemoryFrom(env, Model(), w') == BT.MemoryFrom(env, old(Model()), w0)
        decreases |children| - mem.index
      {
        var i := mem.index;
        BT.MemoryGoesOn(env, Model(), w');
        w' := TickChild(env, i, w');
        var s := children[i].status;
        assert mem.index == i;
        if s == BT.Running {
          SetStatus(BT.Running);
          return;
        } else if s == BT.Failure {
          w' := Finish(env, BT.Failure, w');
          return;
        }
        SetIndex(i + 1);
      }
      BT.MemoryGoesOn(env, Model(), w');
      SetIndex(0);
      w' := Finish(env, BT.Success, w');
    }

    /** Ticks every child without a final status: both parallels freeze the finished ones. */
    method TickUnfinished<W>(env: BT.Env<W>, w: W) returns (w': W)
      requires Valid()
      modifies repr
      ensures BT.Run(Model(), w') == BT.TickUnfinished(env, old(Model()), 0, w)
      decreases repr, 1
    {
      hide BT.Tick, BT.TickChild;
      w' := w;
      var i: nat := 0;
      while i < |children|
        invariant BT.TickUnfinished(env, Model(), i, w') == BT.TickUnfinished(env, old(Model()), 0, w)
      {
        assert Model().children[i] == children[i].Model();
        if children[i].status != BT.Success && children[i].status != BT.Failure {
          w' := TickChild(env, i, w');
        }
        i := i + 1;
      }
    }

    /** How many children have status s, by one loop over them. */
    method CountChildren(s: BT.Status) returns (n: nat)
      requires Valid()
      ensures n == BT.Count(Model().children, s)
    {
      n := 0;
      var i := |children|;
      assert Model().children[i..] == [];
      while i > 0
        invariant 0 <= i <= |children|
        invariant n == BT.Count(Model().children[i..], s)
      {
        i := i - 1;
        assert Model().children[i] == children[i].Model();
        assert Model().children[i..] == [Model().children[i]] + Model().children[i + 1..];
        if children[i].status == s {
          n := n + 1;
        }
      }
      assert Model().children[0..] == Model().children;
    }

    method TickParallelAll<W>(env: BT.Env<W>, w: W) returns (w': W)
      requires Valid()
      modifies repr
      ensures BT.Run(Model(), w') == BT.TickParallelAll(env, old(Model()), w)
      decreases repr, 8
    {
      hide BT.Tick;
      w' := w;
      if status != BT.Running {
        w' := env.initialise(id, w');
        w' := HaltKids(env, false, 0, w');
        var n := env.number(id, w');
        if n.None? {
          w' := Finish(env, BT.Failure, w');
          return;
        }
        SetMemory(mem.(limit := BT.CountFrom(n.value, |children|)));
      }
      ghost var t0, w0 := Model(), w';
      assert BT.TickParallelAll(env, old(Model()), w) == BT.AllFrom(env, t0, w0);
      w' := TickUnfinished(env, w');
      var running := CountChildren(BT.Running);
      if running > 0 {
        SetStatus(BT.Running);
        return;
      }
      var failures := CountChildren(BT.Failure);
      w' := Finish(env, if failures >= BT.Max(mem.limit, 1) then BT.Failure else BT.Success, w');
    }

    method TickCounting<W>(env: BT.Env<W>, sc: int, fc: int, w: W) returns (w': W)
      requires Valid()
      modifies repr
      ensures BT.Run(Model(), w') == BT.TickCounting(env, old(Model()), sc, fc, w)
      decreases repr, 8
    {
      hide BT.Tick;
      w' := w;
      if status != BT.Running {
        w' := HaltKids(env, false, 0, w');
        w' := env.initialise(id, w');
      }
      if children == [] {
        assert old(Model()).children == [];
        w' := Stop(env, BT.Success, w');
        return;
      }
      assert old(Model()).children != [];
      w' := TickUnfinished(env, w');
      var successes := CountChildren(BT.Success);
      var failures := CountChildren(BT.Failure);
      w' := Finish(env, BT.CountingStatus(successes, failures, |children|, sc, fc), w');
    }

    method TickIfThenElse<W>(env: BT.Env<W>, w: W) returns (w': W)
      requires Valid() && 2 <= |children| <= 3
      modifies repr
      ensures BT.Run(Model(), w') == BT.TickIfThenElse(env, old(Model()), w)
      decreases repr, 8
    {
      hide BT.Tick, BT.AskCondition, BT.RunBranch, BT.Finish, BT.Fits, BT.Skeleton, BT.ArityOk;
      w' := Begin(env, w);
      if status != BT.Running {
        SetIndex(0);
      }
      if 0 < mem.index < |children| {
        w' := RunBranch(env, mem.index, w');
      } else {
        w' := AskCondition(env, w');
      }
    }

    method AskCondition<W>(env: BT.Env<W>, w: W) returns (w': W)
      requires Valid() && 2 <= |children| <= 3
      modifies repr
      ensures BT.Run(Model(), w') == BT.AskCondition(env, old(Model()), w)
      decreases repr, 7
    {
      hide BT.Tick, BT.TickChild, BT.RunBranch, BT.Finish, BT.Fits, BT.Skeleton, BT.ArityOk;
      w' := TickChild(env, 0, w);
      var s := children[0].status;
      if s == BT.Running {
        SetStatus(BT.Running);
        return;
      }
      var branch := if s == BT.Success then 1 else 2;
      if branch >= |children| {
        w' := Finish(env, BT.Failure, w');
        return;
      }
      SetIndex(branch);
      w' := RunBranch(env, branch, w');
    }

    method RunBranch<W>(env: BT.Env<W>, i: nat, w: W) returns (w': W)
      requires Valid() && i < |children|
      modifies repr
      ensures BT.Run(Model(), w') == BT.RunBranch(env, old(Model()), i, w)
      decreases repr, 4
    {
      hide BT.Tick, BT.TickChild;
      w' := TickChild(env, i, w);
      w' := Finish(env, children[i].status, w');
    }

    method HaltIfRunning<W>(env: BT.Env<W>, i: nat, w: W) returns (w': W)
      requires Valid() && i < |children|
      modifies children[i].repr
      ensures BT.Run(Model(), w') == BT.HaltIfRunning(env, old(Model()), i, w)
      decreases repr, 1
    {
      w' := w;
      assert Model().children[i] == children[i].Model();
      if children[i].status == BT.Running {
        w' := StopChild(env, i, w);
      }
    }

    method TickWhileDoElse<W>(env: BT.Env<W>, w: W) returns (w': W)
      requires Valid() && 2 <= |children| <= 3
      modifies repr
      ensures BT.Run(Model(), w') == BT.TickWhileDoElse(env, old(Model()), w)
      decreases repr, 8
    {
      hide BT.Tick, BT.TickChild;
      w' := TickChild(env, 0, Begin(env, w));
      var s := children[0].status;
      if s == BT.Running {
        SetStatus(BT.Running);
        return;
      }
      var active := 1;
      if s == BT.Success {
        if |children| == 3 {
          w' := HaltIfRunning(env, 2, w');
        }
      } else {
        w' := HaltIfRunning(env, 1, w');
        if |children| < 3 {
          w' := Finish(env, BT.Failure, w');
          return;
        }
        active := 2;
      }
      w' := RunBranch(env, active, w');
    }

    method TickSwitch<W>(env: BT.Env<W>, cases: nat, w: W) returns (w': W)
      requires Valid() && |children| == cases + 1
      modifies repr
      ensures BT.Run(Model(), w') == BT.TickSwitch(env, old(Model()), cases, w)
      decreases repr, 8
    {
      hide BT.Tick;
      w' := Begin(env, w);
      var last := if status == BT.Running && mem.index <= |children| then mem.index else 0;
      var i: nat := 0;
      while i < cases && !env.matches(id, i, w')
        invariant i <= cases
        invariant BT.MatchingCase(env, id, i, cases, w') == BT.MatchingCase(env, id, 0, cases, w')
      {
        i := i + 1;
      }
      w' := SwitchTo(env, last, i, w');
    }

    method SwitchTo<W>(env: BT.Env<W>, last: nat, i: nat, w: W) returns (w': W)
      requires Valid() && i < |children| && last <= |children|
      modifies repr
      ensures BT.Run(Model(), w') == BT.SwitchTo(env, old(Model()), last, i, w)
      decreases repr, 7
    {
      hide BT.Tick, BT.HaltIfRunning, BT.RunBranch, BT.Fits, BT.Skeleton, BT.ArityOk;
      w' := w;
      if last != 0 && last - 1 != i {
        w' := HaltIfRunning(env, last - 1, w);
      }
      SetIndex(i + 1);
      w' := RunBranch(env, i, w');
    }
  }
}
