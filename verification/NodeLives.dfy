/**
 What single kinds of node promise over a whole run of their own: from activation to activation, in terms of what the
 ports, clocks and versions were at the ticks that count. `NodeRuns` carries these promises to any node of any tree.
 */
module NodeLives {
  import opened Wrappers
  import opened BehaviourTrees
  import opened TreeInvariant
  import opened NodeMeaning
  import opened NodeRuns

  /** The node before event k. */
  ghost function StateAt<W>(n: Tree, events: seq<Event<W>>, k: nat): (t: Tree)
    requires Fits(Skeleton(n)) && k <= |events|
    ensures Skeleton(t) == Skeleton(n)
  {
    After(n, events[..k])
  }

  lemma NextState<W>(n: Tree, events: seq<Event<W>>, k: nat)
    requires Fits(Skeleton(n)) && k < |events|
    ensures StateAt(n, events, k + 1) == Once(StateAt(n, events, k), events[k])
    ensures StateAt(n, events, k + 1).status == Running ==> events[k].TickBy?
  {
    hide Fits, Skeleton, Tick, Stop;
    assert events[..k + 1][..k] == events[..k];
  }

  lemma SameNode<W>(n: Tree, events: seq<Event<W>>, k: nat)
    requires Fits(Skeleton(n)) && k <= |events|
    ensures var t := StateAt(n, events, k); t.id == n.id && t.kind == n.kind && |t.children| == |n.children|
  {
    hide After, Fits;
    assert |Skeleton(StateAt(n, events, k)).children| == |Skeleton(n).children|;
  }

  lemma {:induction false} StaysTidy<W>(n: Tree, events: seq<Event<W>>, k: nat)
    requires Fits(Skeleton(n)) && Tidy(n) && k <= |events|
    ensures Tidy(StateAt(n, events, k))
    decreases k
  {
    hide Fits, Skeleton, Tick, Stop, Tidy;
    if k == 0 {
      assert events[..0] == [];
    } else {
      StaysTidy(n, events, k - 1);
      NextState(n, events, k - 1);
      OnceIsTidy(StateAt(n, events, k - 1), events[k - 1]);
    }
  }

  lemma OnceIsTidy<W>(t: Tree, e: Event<W>)
    requires Fits(Skeleton(t)) && Tidy(t)
    ensures Tidy(Once(t, e))
  {
    if e.TickBy? {
      TickIsTidy(e.env, t, e.w);
    } else {
      StopIsTidy(e.env, t, Invalid, e.w);
    }
  }

  // ------------------------------------------------------------------------ activations

  /** The last time up to k at which the node was not RUNNING: the tick then began the activation it is in. */
  ghost function StartOf<W>(n: Tree, events: seq<Event<W>>, k: nat): (s: nat)
    requires Fits(Skeleton(n)) && n.status != Running && k <= |events|
    ensures s <= k && StateAt(n, events, s).status != Running
    ensures forall j | s < j <= k :: StateAt(n, events, j).status == Running
  {
    assert events[..0] == [];
    if StateAt(n, events, k).status != Running then k else StartOf(n, events, k - 1)
  }

  /** The world in which tick k begins. */
  ghost function WorldAt<W>(n: Tree, events: seq<Event<W>>, k: nat): W
    requires Fits(Skeleton(n)) && k < |events|
  {
    Begin(events[k].env, StateAt(n, events, k), events[k].w)
  }

  ghost function VersionAt<W>(n: Tree, events: seq<Event<W>>, k: nat): nat
    requires Fits(Skeleton(n)) && k < |events|
  {
    events[k].env.version(n.id, WorldAt(n, events, k))
  }

  ghost function TimeAt<W>(n: Tree, events: seq<Event<W>>, k: nat): int
    requires Fits(Skeleton(n)) && k < |events|
  {
    events[k].env.now(WorldAt(n, events, k))
  }

  /** The version a SkipUnlessUpdated saw when it was last activated; at first the one it was built with. */
  ghost function LastSeen<W>(n: Tree, events: seq<Event<W>>, k: nat): nat
    requires Fits(Skeleton(n)) && k <= |events|
  {
    if k == 0 then n.mem.version
    else if events[k - 1].TickBy? && StateAt(n, events, k - 1).status != Running then VersionAt(n, events, k - 1)
    else LastSeen(n, events, k - 1)
  }

  /** What the ports of a gate or a Timeout say to the tick that begins an activation: its time in milliseconds. */
  ghost function Milliseconds<W>(n: Tree, events: seq<Event<W>>, s: nat): Option<int>
    requires Fits(Skeleton(n)) && s < |events|
  {
    events[s].env.number(n.id, WorldAt(n, events, s))
  }

  /** Can the tick that begins an activation read its ports? */
  ghost predicate Readable<W>(n: Tree, events: seq<Event<W>>, s: nat)
    requires Fits(Skeleton(n)) && s < |events|
  {
    var (env, w) := (events[s].env, WorldAt(n, events, s));
    if n.kind.Delay? || n.kind.Timeout? then Milliseconds(n, events, s).Some?
    else n.kind.Precondition? ==> env.otherwise(n.id, w).Some? && env.allowed(n.id, w).Some?
  }

  /** When the time of an activation is over. */
  ghost function Deadline<W>(n: Tree, events: seq<Event<W>>, s: nat): int
    requires Fits(Skeleton(n)) && s < |events| && Milliseconds(n, events, s).Some?
  {
    TimeAt(n, events, s) + Max(Milliseconds(n, events, s).value, 0)
  }

  /** Has tick k of the activation that began at s got what the gate waits for? */
  ghost predicate OpenAt<W>(n: Tree, events: seq<Event<W>>, s: nat, k: nat)
    requires Fits(Skeleton(n)) && IsGate(n.kind) && s <= k < |events| && Readable(n, events, s)
  {
    match n.kind
    case Delay => TimeAt(n, events, k) >= Deadline(n, events, s)
    case Precondition => events[s].env.allowed(n.id, WorldAt(n, events, s)).value
    case SkipUnlessUpdated => VersionAt(n, events, s) != LastSeen(n, events, s)
    case WaitValueUpdate => NewVersion(n, events, s, k + 1)
  }

  /** Did a tick of the activation, after its first and before k, see another version than the first? */
  ghost predicate NewVersion<W>(n: Tree, events: seq<Event<W>>, s: nat, k: nat)
    requires Fits(Skeleton(n)) && s <= k <= |events|
  {
    exists j | s < j < k :: VersionAt(n, events, j) != VersionAt(n, events, s)
  }

  /** What a closed gate answers. */
  ghost function Answer<W>(n: Tree, events: seq<Event<W>>, s: nat): Ended
    requires Fits(Skeleton(n)) && IsGate(n.kind) && s < |events| && Readable(n, events, s)
  {
    match n.kind
    case Precondition => events[s].env.otherwise(n.id, WorldAt(n, events, s)).value
    case SkipUnlessUpdated => Success
    case Delay | WaitValueUpdate => Running
  }

  ghost predicate IsTimed(kind: Kind) {
    IsGate(kind) || kind.Timeout?
  }

  /** A gate or a Timeout in its run. */
  ghost predicate Lives<W>(n: Tree, events: seq<Event<W>>) {
    Fits(Skeleton(n)) && IsTimed(n.kind) && n.status != Running
  }

  /** The memory of a node that its ports gave it at tick s. */
  ghost function PortsAt<W>(n: Tree, events: seq<Event<W>>, s: nat): Option<Memory>
    requires Fits(Skeleton(n)) && s < |events|
  {
    Configure(events[s].env, StateAt(n, events, s), WorldAt(n, events, s))
  }

  /** What a node remembers at k of the activation that began at s. */
  ghost predicate Remembers<W>(n: Tree, events: seq<Event<W>>, s: nat, k: nat, mem: Memory)
    requires Fits(Skeleton(n)) && s <= k <= |events| && s < |events| && Readable(n, events, s)
  {
    if n.kind.Delay? || n.kind.Timeout? then mem.until == Deadline(n, events, s)
    else if n.kind.Precondition? then
      var (env, w) := (events[s].env, WorldAt(n, events, s));
      mem.allowed == env.allowed(n.id, w).value && mem.otherwise == env.otherwise(n.id, w).value
    else if n.kind.SkipUnlessUpdated? then mem.proceed == (VersionAt(n, events, s) != LastSeen(n, events, s))
    else n.kind.WaitValueUpdate? ==>
      mem.version == VersionAt(n, events, s) && mem.proceed == NewVersion(n, events, s, k)
  }

  /** The node that tick k acts on: RUNNING, and with its ports read if the tick begins an activation. */
  ghost function ActiveAt<W>(n: Tree, events: seq<Event<W>>, k: nat): Tree
    requires Fits(Skeleton(n)) && k < |events|
  {
    var t := StateAt(n, events, k);
    if t.status == Running || PortsAt(n, events, k).None? then t
    else t.(mem := PortsAt(n, events, k).value, status := Running)
  }

  lemma PortsAreRemembered<W>(n: Tree, events: seq<Event<W>>, s: nat)
    requires Lives(n, events) && s < |events| && StateAt(n, events, s).status != Running
    requires n.kind.SkipUnlessUpdated? ==> StateAt(n, events, s).mem.version == LastSeen(n, events, s)
    ensures PortsAt(n, events, s).Some? <==> Readable(n, events, s)
    ensures Readable(n, events, s) ==> Remembers(n, events, s, s, PortsAt(n, events, s).value)
  {
    hide After, Fits, Skeleton, LastSeen;
    SameNode(n, events, s);
  }

  lemma {:induction false} VersionIsLastSeen<W>(n: Tree, events: seq<Event<W>>, k: nat)
    requires Fits(Skeleton(n)) && n.kind.SkipUnlessUpdated? && n.status != Running && k <= |events|
    ensures StateAt(n, events, k).mem.version == LastSeen(n, events, k)
    decreases k
  {
    hide After, Fits, Skeleton, Tick, Stop;
    if k == 0 {
      assert events[..0] == [];
      AfterNothing(n, events);
    } else {
      VersionIsLastSeen(n, events, k - 1);
      NextState(n, events, k - 1);
      SameNode(n, events, k - 1);
      var t := StateAt(n, events, k - 1);
      KeepsVersion(t, events[k - 1]);
    }
  }

  lemma AfterNothing<W>(n: Tree, events: seq<Event<W>>)
    requires Fits(Skeleton(n))
    ensures StateAt(n, events, 0) == n
  {
    hide Fits, Skeleton, Tick, Stop;
    assert events[..0] == [];
  }

  lemma KeepsVersion<W>(t: Tree, e: Event<W>)
    requires Fits(Skeleton(t)) && t.kind.SkipUnlessUpdated?
    ensures Once(t, e).mem.version == if e.TickBy? && t.status != Running then e.env.version(t.id, Begin(e.env, t, e.w))
                                      else t.mem.version
  {
    hide Fits, Skeleton, Tick, TickChild;
    if e.HaltBy? {
    } else if t.status == Running {
      PartsFit(t, []);
      GatesAreClosedOrTransparent(e.env, t, e.w);
    } else {
      StartThenTick(e.env, t, e.w);
      var w1 := e.env.initialise(t.id, e.w);
      GatesAreClosedOrTransparent(e.env, t.(mem := Configure(e.env, t, w1).value, status := Running), w1);
    }
  }

  /** Tick k is the tick of a RUNNING node that remembers its activation, unless a port cannot be read. */
  lemma TickOfActivation<W>(n: Tree, events: seq<Event<W>>, k: nat)
    requires Lives(n, events) && k < |events| && events[k].TickBy?
    requires var s := StartOf(n, events, k);
             s < k ==> Readable(n, events, s) && Remembers(n, events, s, k, StateAt(n, events, k).mem)
    ensures var (s, t, u) := (StartOf(n, events, k), StateAt(n, events, k), ActiveAt(n, events, k));
            var (e, w, r) := (events[k], WorldAt(n, events, k), StateAt(n, events, k + 1));
            && |t.children| == 1
            && (!Readable(n, events, s) ==> s == k && HoldsBack(t, r, Failure))
            && (Readable(n, events, s) ==>
                  && u.status == Running && u.kind == n.kind && u.id == n.id && u.children == t.children
                  && Skeleton(u) == Skeleton(n) && r == Tick(e.env, u, w).t && Tick(e.env, t, e.w) == Tick(e.env, u, w)
                  && TickChild(e.env, u, 0, w).w == TickChild(e.env, t, 0, w).w
                  && TickChild(e.env, u, 0, w).t.children == TickChild(e.env, t, 0, w).t.children
                  && Remembers(n, events, s, k, u.mem))
  {
    hide After, Fits, Skeleton, Tick, TickChild, Remembers, LastSeen, Readable;
    var t := StateAt(n, events, k);
    var e := events[k];
    NextState(n, events, k);
    SameNode(n, events, k);
    OneChild(t);
    if t.status != Running {
      StartThenTick(e.env, t, e.w);
      if n.kind.SkipUnlessUpdated? {
        VersionIsLastSeen(n, events, k);
      }
      PortsAreRemembered(n, events, k);
    }
  }

  lemma OneChild(t: Tree)
    requires Fits(Skeleton(t)) && IsTimed(t.kind)
    ensures |t.children| == 1
  {
    PartsFit(t, []);
  }

  /** A RUNNING node remembers the activation it is in. */
  lemma {:induction false} ActivationIsRemembered<W>(n: Tree, events: seq<Event<W>>, k: nat)
    requires Lives(n, events) && k <= |events| && StartOf(n, events, k) < k
    ensures var s := StartOf(n, events, k);
            && events[s].TickBy? && Readable(n, events, s)
            && Remembers(n, events, s, k, StateAt(n, events, k).mem)
    decreases k
  {
    hide After, Fits, Skeleton, Tick, TickChild, Readable;
    var j := k - 1;
    var s := StartOf(n, events, j);
    if s < j {
      ActivationIsRemembered(n, events, j);
    }
    NextState(n, events, j);
    TickOfActivation(n, events, j);
    SameNode(n, events, j);
    var u := ActiveAt(n, events, j);
    var (env, w) := (events[j].env, WorldAt(n, events, j));
    if n.kind.Timeout? {
      TimeoutKeepsMemory(env, u, w);
    } else {
      GatesAreClosedOrTransparent(env, u, w);
      assert NewVersion(n, events, s, k)
         <==> NewVersion(n, events, s, j) || VersionAt(n, events, j) != VersionAt(n, events, s);
    }
  }

  lemma TimeoutKeepsMemory<W>(env: Env<W>, t: Tree, w: W)
    requires Fits(Skeleton(t)) && t.kind.Timeout? && t.status == Running && |t.children| == 1
    ensures Tick(env, t, w).t.mem == t.mem
  {
    hide Tick, TickChild, RestartChild, Finish;
    TickOfADecorator(env, t, w);
    var d := DoStep(env, t, MAX_SYNC_ITERATIONS, w);
    EndingKeepsMemory(env, d.t, d.verdict.status, d.w);
  }

  // -------------------------------------------------------------------- gates over runs

  /**
   A gate fails if its port could not be read; it is transparent if it has what it waits for; otherwise it gives its
   answer and does not touch its child.
   */
  ghost predicate GateTick<W>(n: Tree, events: seq<Event<W>>, k: nat)
    requires Lives(n, events) && IsGate(n.kind) && k < |events|
  {
    var s := StartOf(n, events, k);
    var (t, r) := (StateAt(n, events, k), StateAt(n, events, k + 1));
    && |t.children| == 1
    && (!Readable(n, events, s) ==> s == k && HoldsBack(t, r, Failure))
    && (Readable(n, events, s) && OpenAt(n, events, s, k) ==>
          LetsThrough(events[k].env, t, r, WorldAt(n, events, k)))
    && (Readable(n, events, s) && !OpenAt(n, events, s, k) ==> HoldsBack(t, r, Answer(n, events, s)))
  }

  /** Every tick of a gate, in every run. */
  lemma GateOverRuns<W>(n: Tree, events: seq<Event<W>>, k: nat)
    requires Lives(n, events) && IsGate(n.kind) && k < |events| && events[k].TickBy?
    ensures GateTick(n, events, k)
  {
    hide After, Fits, Skeleton, Tick, TickChild, Readable;
    var s := StartOf(n, events, k);
    if s < k {
      ActivationIsRemembered(n, events, k);
    }
    TickOfActivation(n, events, k);
    if Readable(n, events, s) {
      var u := ActiveAt(n, events, k);
      var (env, w) := (events[k].env, WorldAt(n, events, k));
      GatesAreClosedOrTransparent(env, u, w);
      assert NewVersion(n, events, s, k + 1)
         <==> NewVersion(n, events, s, k) || VersionAt(n, events, k) != VersionAt(n, events, s);
      assert ClosedGate(env, u, w) == if OpenAt(n, events, s, k) then None else Some(Answer(n, events, s));
    }
  }

  /** As long as a gate has been closed, its child is as it was when the activation began. */
  lemma {:induction false} ClosedGateKeepsItsChild<W>(n: Tree, events: seq<Event<W>>, k: nat)
    requires Lives(n, events) && IsGate(n.kind) && k < |events| && events[k].TickBy?
    requires var s := StartOf(n, events, k);
             Readable(n, events, s) ==> forall j | s <= j <= k :: !OpenAt(n, events, s, j)
    ensures StateAt(n, events, k + 1).children == StateAt(n, events, StartOf(n, events, k)).children
    decreases k
  {
    hide After, Fits, Skeleton, Tick, TickChild, OpenAt, Readable;
    GateOverRuns(n, events, k);
    if StartOf(n, events, k) == k {
    } else {
      NextState(n, events, k - 1);
      assert StartOf(n, events, k - 1) == StartOf(n, events, k);
      ClosedGateKeepsItsChild(n, events, k - 1);
    }
  }

  /** An open gate stays open for the rest of its activation; a Delay, if the clock does not go back. */
  lemma OpenGateStaysOpen<W>(n: Tree, events: seq<Event<W>>, j: nat, k: nat)
    requires Lives(n, events) && IsGate(n.kind) && j <= k < |events| && StartOf(n, events, j) == StartOf(n, events, k)
    requires Readable(n, events, StartOf(n, events, k)) && OpenAt(n, events, StartOf(n, events, k), j)
    requires n.kind.Delay? ==> TimeAt(n, events, j) <= TimeAt(n, events, k)
    ensures OpenAt(n, events, StartOf(n, events, k), k)
  {
    hide After, Fits, Skeleton, VersionAt;
  }

  // ------------------------------------------------------------------ timeouts over runs

  /**
   A Timeout ticks its child. What has ended keeps its result, however late; what is still RUNNING goes on before the
   deadline of the activation, and at the deadline the node fails and nothing below it is RUNNING.
   */
  ghost predicate TimeoutTick<W>(n: Tree, events: seq<Event<W>>, k: nat)
    requires Lives(n, events) && n.kind.Timeout? && k < |events|
  {
    var s := StartOf(n, events, k);
    var (t, r) := (StateAt(n, events, k), StateAt(n, events, k + 1));
    var (env, w) := (events[k].env, WorldAt(n, events, k));
    && |t.children| == |r.children| == 1
    && if Readable(n, events, s) then InTimeOrFailed(env, t, r, w, Deadline(n, events, s))
       else s == k && HoldsBack(t, r, Failure)
  }

  ghost predicate InTimeOrFailed<W>(env: Env<W>, t: Tree, r: Tree, w: W, deadline: int)
    requires Fits(Skeleton(t)) && |t.children| == |r.children| == 1
  {
    var c := TickChild(env, t, 0, w);
    if c.t.children[0].status != Running then HoldsBack(c.t, r, c.t.children[0].status)
    else if env.now(c.w) < deadline then HoldsBack(c.t, r, Running)
    else r.status == Failure && Quiet(r.children[0])
  }

  /** Every tick of a Timeout, in every run. */
  lemma TimeoutOverRuns<W>(n: Tree, events: seq<Event<W>>, k: nat)
    requires Lives(n, events) && Tidy(n) && n.kind.Timeout? && k < |events| && events[k].TickBy?
    ensures TimeoutTick(n, events, k)
  {
    StaysTidy(n, events, k);
    hide After, Fits, Skeleton, Tick, TickChild, Tidy, Quiet, Readable, Configure, InTimeOrFailed;
    var s := StartOf(n, events, k);
    if s < k {
      ActivationIsRemembered(n, events, k);
    }
    TickOfActivation(n, events, k);
    KidsAreTidy(StateAt(n, events, k));
    if Readable(n, events, s) {
      TimeoutAnswers(events[k].env, StateAt(n, events, k), ActiveAt(n, events, k), WorldAt(n, events, k));
    }
  }

  /** What a RUNNING Timeout u answers, for a t with the same child. */
  lemma TimeoutAnswers<W>(env: Env<W>, t: Tree, u: Tree, w: W)
    requires Fits(Skeleton(t)) && Fits(Skeleton(u)) && u.kind.Timeout? && u.status == Running && AllTidy(u.children)
    requires |t.children| == |u.children| == 1
    requires TickChild(env, u, 0, w).w == TickChild(env, t, 0, w).w
    requires TickChild(env, u, 0, w).t.children == TickChild(env, t, 0, w).t.children
    ensures var r := Tick(env, u, w).t; |r.children| == 1 && InTimeOrFailed(env, t, r, w, u.mem.until)
  {
    hide Tick, TickChild, Fits, Skeleton, Quiet;
    TimeoutFires(env, u, w);
  }

  /** A Timeout that is RUNNING was last ticked in time. */
  lemma RunningTimeoutIsInTime<W>(n: Tree, events: seq<Event<W>>, k: nat)
    requires Lives(n, events) && Tidy(n) && n.kind.Timeout? && k <= |events| && StateAt(n, events, k).status == Running
    ensures k > 0 && events[k - 1].TickBy?
    ensures var (s, t, env) := (StartOf(n, events, k), StateAt(n, events, k - 1), events[k - 1].env);
            && s < k && Milliseconds(n, events, s).Some? && |t.children| == 1
            && env.now(TickChild(env, t, 0, WorldAt(n, events, k - 1)).w) < Deadline(n, events, s)
  {
    hide After, Fits, Skeleton, Tick, TickChild;
    AfterNothing(n, events);
    NextState(n, events, k - 1);
    TimeoutOverRuns(n, events, k - 1);
  }

  // ------------------------------------------------------------------- RunOnce over runs

  /** The result with which the child of a RunOnce ended for the first time before event k. */
  ghost function FirstEnd<W>(n: Tree, events: seq<Event<W>>, k: nat): Option<Ended>
    requires Fits(Skeleton(n)) && n.children != [] && k <= |events|
  {
    if k == 0 then None
    else
      var before := FirstEnd(n, events, k - 1);
      if before.Some? || events[k - 1].HaltBy? then before
      else
        SameNode(n, events, k);
        var child := StateAt(n, events, k).children[0].status;
        if child == Success || child == Failure then Some(child) else None
  }

  ghost predicate LivesOnce<W>(n: Tree, events: seq<Event<W>>) {
    Fits(Skeleton(n)) && n.kind.RunOnce? && |n.children| == 1 && n.status != Running && n.mem.result.None?
  }

  lemma {:induction false} FirstEndIsRemembered<W>(n: Tree, events: seq<Event<W>>, k: nat)
    requires LivesOnce(n, events) && k <= |events|
    ensures var t := StateAt(n, events, k);
            && t.mem.result == FirstEnd(n, events, k)
            && (t.mem.result.Some? ==> t.status != Running && t.mem.result != Some(Running))
    decreases k
  {
    hide After, Fits, Skeleton, Tick, TickChild;
    if k == 0 {
      AfterNothing(n, events);
    } else {
      FirstEndIsRemembered(n, events, k - 1);
      NextState(n, events, k - 1);
      SameNode(n, events, k - 1);
      SameNode(n, events, k);
      OnceRemembers(StateAt(n, events, k - 1), events[k - 1]);
    }
  }

  lemma OnceRemembers<W>(t: Tree, e: Event<W>)
    requires Fits(Skeleton(t)) && t.kind.RunOnce? && |t.children| == 1
    requires t.mem.result.Some? ==> t.status != Running && t.mem.result != Some(Running)
    ensures var r := Once(t, e);
            && |r.children| == 1 && (r.mem.result.Some? ==> r.status != Running && r.mem.result != Some(Running))
            && if t.mem.result.Some? || e.HaltBy? then r.mem.result == t.mem.result
               else var child := r.children[0].status;
                    child != Invalid && r.mem.result == if child == Running then None else Some(child)
  {
    hide Fits, Skeleton, Tick, TickChild;
    if e.TickBy? {
      RunOnceTick(e.env, t, e.w);
      if t.mem.result.None? {
        assert TickChild(e.env, t, 0, Begin(e.env, t, e.w)).t.children[0].status != Invalid;
      }
    } else {
      OnlyMemoryOfSequences(e.env, t, e.w);
    }
  }

  lemma OnlyMemoryOfSequences<W>(env: Env<W>, t: Tree, w: W)
    requires !t.kind.SequenceWithMemory? && |t.children| == 1
    ensures var r := Stop(env, t, Invalid, w).t; r.mem == t.mem && |r.children| == 1
  {
    hide HaltKids;
    assert |Skeleton(Stop(env, t, Invalid, w).t).children| == |Skeleton(t).children|;
  }

  /** A RunOnce is transparent until its child has ended, in whatever activation; from then on it repeats that result. */
  ghost predicate OnceTick<W>(n: Tree, events: seq<Event<W>>, k: nat)
    requires LivesOnce(n, events) && k < |events|
  {
    var (t, r) := (StateAt(n, events, k), StateAt(n, events, k + 1));
    var (env, w) := (events[k].env, WorldAt(n, events, k));
    && |t.children| == 1
    && match FirstEnd(n, events, k)
       case None => LetsThrough(env, t, r, w)
       case Some(s) => HoldsBack(t, r, if env.thenSkip(n.id, w) then Success else s)
  }

  lemma RunOnceOverRuns<W>(n: Tree, events: seq<Event<W>>, k: nat)
    requires LivesOnce(n, events) && k < |events| && events[k].TickBy?
    ensures OnceTick(n, events, k)
  {
    hide After, Fits, Skeleton, Tick, TickChild, FirstEnd;
    FirstEndIsRemembered(n, events, k);
    NextState(n, events, k);
    SameNode(n, events, k);
    RunOnceTick(events[k].env, StateAt(n, events, k), events[k].w);
  }

  /** So its child ends once at most: after a tick that leaves it ended no tick touches it, in this or any activation. */
  lemma {:induction false} RunOnceFinishesOnce<W>(n: Tree, events: seq<Event<W>>, i: nat, k: nat)
    requires LivesOnce(n, events) && i < k < |events| && events[i].TickBy? && events[k].TickBy?
    requires StateAt(n, events, i + 1).status != Running
    ensures StateAt(n, events, k + 1).children == StateAt(n, events, k).children
    ensures StateAt(n, events, k + 1).status != Running
  {
    hide After, Fits, Skeleton, Tick, TickChild, FirstEnd;
    RunOnceOverRuns(n, events, i);
    FirstEndIsRemembered(n, events, i + 1);
    EndedOnce(n, events, i);
    FirstEndStays(n, events, i + 1, k);
    RunOnceOverRuns(n, events, k);
  }

  lemma EndedOnce<W>(n: Tree, events: seq<Event<W>>, i: nat)
    requires LivesOnce(n, events) && i < |events| && events[i].TickBy? && OnceTick(n, events, i)
    requires StateAt(n, events, i + 1).status != Running
    ensures FirstEnd(n, events, i + 1).Some?
  {
    hide After, Fits, Skeleton, Tick, TickChild;
    NextState(n, events, i);
    SameNode(n, events, i);
    FirstEndIsRemembered(n, events, i);
    OnceRemembers(StateAt(n, events, i), events[i]);
  }

  lemma {:induction false} FirstEndStays<W>(n: Tree, events: seq<Event<W>>, i: nat, k: nat)
    requires LivesOnce(n, events) && i <= k <= |events| && FirstEnd(n, events, i).Some?
    ensures FirstEnd(n, events, k) == FirstEnd(n, events, i)
    decreases k
  {
    hide After, Fits, Skeleton;
    if i == k {
    } else {
      FirstEndStays(n, events, i, k - 1);
    }
  }

  // ---------------------------------------------------------------- IfThenElse over runs

  /** The branch that the condition has picked in the activation the node is in; 0: none yet. */
  ghost function Picked<W>(n: Tree, events: seq<Event<W>>, k: nat): nat
    requires Fits(Skeleton(n)) && n.children != [] && k <= |events|
  {
    SameNode(n, events, k);
    if k == 0 || StateAt(n, events, k).status != Running then 0
    else if Picked(n, events, k - 1) > 0 then Picked(n, events, k - 1)
    else match StateAt(n, events, k).children[0].status
         case Success => 1
         case Failure => 2
         case Invalid | Running => 0
  }

  ghost predicate LivesBranching<W>(n: Tree, events: seq<Event<W>>) {
    Fits(Skeleton(n)) && n.kind.IfThenElse? && 2 <= |n.children| <= 3 && n.status != Running && Tidy(n)
  }

  lemma {:induction false} PickIsRemembered<W>(n: Tree, events: seq<Event<W>>, k: nat)
    requires LivesBranching(n, events) && k <= |events| && StateAt(n, events, k).status == Running
    ensures StateAt(n, events, k).mem.index == Picked(n, events, k)
    decreases k
  {
    hide After, Fits, Skeleton, Tick, TickChild, Tidy;
    AfterNothing(n, events);
    if k == 0 {
    } else {
      NextState(n, events, k - 1);
      SameNode(n, events, k - 1);
      SameNode(n, events, k);
      StaysTidy(n, events, k - 1);
      var (t, e) := (StateAt(n, events, k - 1), events[k - 1]);
      if t.status == Running {
        PickIsRemembered(n, events, k - 1);
      }
      if t.status == Running && t.mem.index > 0 {
        IfThenElseDecidesOnce(e.env, t, e.w);
      } else {
        ConditionPicksTheBranch(e.env, t, e.w);
      }
    }
  }

  /** IfThenElse asks its condition until it ends, and from then on resumes the picked branch alone. */
  ghost predicate BranchTick<W>(n: Tree, events: seq<Event<W>>, k: nat)
    requires LivesBranching(n, events) && k < |events|
  {
    var (t, r) := (StateAt(n, events, k), StateAt(n, events, k + 1));
    var (env, w) := (events[k].env, WorldAt(n, events, k));
    var b := Picked(n, events, k);
    && b < |t.children| == |r.children| == |n.children|
    && r.children[b] == TickChild(env, t, b, w).t.children[b]
    && if b > 0 then
         r.status == r.children[b].status && forall j | 0 <= j < |r.children| && j != b :: r.children[j] == t.children[j]
       else match r.children[0].status
         case Success => r.status == r.children[1].status
         case Failure => r.status == if |r.children| == 3 then r.children[2].status else Failure
         case Running | Invalid => r.status == Running
  }

  lemma IfThenElseOverRuns<W>(n: Tree, events: seq<Event<W>>, k: nat)
    requires LivesBranching(n, events) && k < |events| && events[k].TickBy?
    ensures BranchTick(n, events, k)
  {
    hide After, Fits, Skeleton, Tick, Tidy;
    NextState(n, events, k);
    SameNode(n, events, k);
    SameNode(n, events, k + 1);
    StaysTidy(n, events, k);
    var (t, e) := (StateAt(n, events, k), events[k]);
    if t.status == Running {
      PickIsRemembered(n, events, k);
    }
    if t.status == Running && t.mem.index > 0 {
      IfThenElseDecidesOnce(e.env, t, e.w);
    } else {
      ConditionPicksTheBranch(e.env, t, e.w);
    }
  }
}
