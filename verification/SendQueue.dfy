/**
 The queue of sends that must not be lost. Threads interleave: every locked region and every single send attempt is
 one step. A queued payload carries the number of its append, which the program does not have, to speak about order.
 */
module SendQueue {

  type Payload = string

  datatype Queued = Queued(payload: Payload, number: nat)

  /** A flush between its take and its put-back: what it has still to try, and what failed so far. */
  datatype Flusher = Idle | Flushing(rest: seq<Queued>, kept: seq<Queued>)

  datatype Outbox = Outbox(
    queue: seq<Queued>,
    inHand: multiset<Payload>,    // submitted, the attempt failed, not appended yet
    flushers: seq<Flusher>,
    appended: nat,                // appends so far
    submitted: multiset<Payload>,
    sent: multiset<Payload>       // attempts that reported success
  )

  datatype Step =
    | Submit(payload: Payload, ok: bool)   // `_send_important_dict` up to its `_try_send_dict`
    | Append(appended: Payload)            // its append under the lock
    | Take(f: nat)                         // swap the queue out under the lock
    | TryNext(f: nat, ok: bool)            // one `_try_send_dict` of the flush
    | PutBack(f: nat)                      // what failed goes in front of what came meanwhile

  function Fresh(flushers: nat): Outbox {
    Outbox([], multiset{}, seq(flushers, _ => Idle), 0, multiset{}, multiset{})
  }

  predicate Enabled(s: Outbox, step: Step) {
    match step
    case Submit(_, _) => true
    case Append(p) => p in s.inHand
    case Take(f) => f < |s.flushers| && s.flushers[f].Idle?
    case TryNext(f, _) => f < |s.flushers| && s.flushers[f].Flushing? && s.flushers[f].rest != []
    case PutBack(f) => f < |s.flushers| && s.flushers[f].Flushing? && s.flushers[f].rest == []
  }

  function Apply(s: Outbox, step: Step): Outbox
    requires Enabled(s, step)
  {
    match step
    case Submit(p, ok) =>
      var t := s.(submitted := s.submitted + multiset{p});
      if ok then t.(sent := s.sent + multiset{p}) else t.(inHand := s.inHand + multiset{p})
    case Append(p) =>
      s.(inHand := s.inHand - multiset{p}, queue := s.queue + [Queued(p, s.appended)], appended := s.appended + 1)
    case Take(f) => s.(queue := [], flushers := s.flushers[f := Flushing(s.queue, [])])
    case TryNext(f, ok) =>
      var q := s.flushers[f].rest[0];
      var rest := s.flushers[f].rest[1..];
      if ok then
        s.(sent := s.sent + multiset{q.payload}, flushers := s.flushers[f := Flushing(rest, s.flushers[f].kept)])
      else
        s.(flushers := s.flushers[f := Flushing(rest, s.flushers[f].kept + [q])])
    case PutBack(f) => s.(queue := s.flushers[f].kept + s.queue, flushers := s.flushers[f := Idle])
  }

  /** A run is any list of steps; a step that cannot happen is ignored. */
  function AfterSteps(s: Outbox, steps: seq<Step>): Outbox
    decreases |steps|
  {
    if steps == [] then s
    else AfterSteps(if Enabled(s, steps[0]) then Apply(s, steps[0]) else s, steps[1..])
  }

  // ---------------------------------------------------------------- conservation

  /** How often p is queued in q. */
  function Copies(q: seq<Queued>, p: Payload): nat {
    if q == [] then 0 else (if q[0].payload == p then 1 else 0) + Copies(q[1..], p)
  }

  function HeldBy(f: Flusher, p: Payload): nat {
    match f
    case Idle => 0
    case Flushing(rest, kept) => Copies(kept, p) + Copies(rest, p)
  }

  function Held(fs: seq<Flusher>, p: Payload): nat {
    if fs == [] then 0 else HeldBy(fs[0], p) + Held(fs[1..], p)
  }

  lemma {:induction false} CopiesAppend(a: seq<Queued>, b: seq<Queued>, p: Payload)
    ensures Copies(a + b, p) == Copies(a, p) + Copies(b, p)
  {
    if a == [] {
      assert a + b == b;
    } else {
      assert (a + b)[1..] == a[1..] + b;
      CopiesAppend(a[1..], b, p);
    }
  }

  lemma {:induction false} HeldChanges(fs: seq<Flusher>, i: nat, f: Flusher, p: Payload)
    requires i < |fs|
    ensures Held(fs[i := f], p) == Held(fs, p) - HeldBy(fs[i], p) + HeldBy(f, p)
  {
    var gs := fs[i := f];
    if i == 0 {
      assert gs[1..] == fs[1..];
    } else {
      HeldChanges(fs[1..], i - 1, f, p);
      assert gs[1..] == fs[1..][i - 1 := f];
    }
  }

  /** Nothing is lost and nothing is duplicated: p was submitted as often as it was sent, waits or is being handled. */
  ghost predicate Balanced(s: Outbox, p: Payload) {
    s.submitted[p] == s.sent[p] + Copies(s.queue, p) + s.inHand[p] + Held(s.flushers, p)
  }

  ghost predicate Conserved(s: Outbox) {
    forall p :: Balanced(s, p)
  }

  lemma StepBalances(s: Outbox, step: Step, p: Payload)
    requires Enabled(s, step) && Balanced(s, p)
    ensures Balanced(Apply(s, step), p)
  {
    match step
    case Submit(_, _) =>
    case Append(x) => CopiesAppend(s.queue, [Queued(x, s.appended)], p);
    case Take(f) => HeldChanges(s.flushers, f, Flushing(s.queue, []), p);
    case TryNext(f, ok) =>
      var Flushing(rest, kept) := s.flushers[f];
      CopiesAppend(kept, [rest[0]], p);
      HeldChanges(s.flushers, f, Flushing(rest[1..], if ok then kept else kept + [rest[0]]), p);
    case PutBack(f) =>
      CopiesAppend(s.flushers[f].kept, s.queue, p);
      HeldChanges(s.flushers, f, Idle, p);
  }

  lemma StepConserves(s: Outbox, step: Step)
    requires Enabled(s, step) && Conserved(s)
    ensures Conserved(Apply(s, step))
  {
    forall p
      ensures Balanced(Apply(s, step), p)
    {
      StepBalances(s, step, p);
    }
  }

  /** In every run, with any number of concurrent flushes, every submitted payload is accounted for. */
  lemma {:induction false} ImportantSendsAreNeverLost(s: Outbox, steps: seq<Step>)
    requires Conserved(s)
    ensures Conserved(AfterSteps(s, steps))
    decreases |steps|
  {
    if steps == [] {
    } else {
      var step := steps[0];
      if Enabled(s, step) {
        StepConserves(s, step);
        ImportantSendsAreNeverLost(Apply(s, step), steps[1..]);
      } else {
        ImportantSendsAreNeverLost(s, steps[1..]);
      }
    }
  }

  lemma FreshIsConserved(n: nat)
    ensures Conserved(Fresh(n))
  {
    forall p
      ensures Balanced(Fresh(n), p)
    {
      IdleHoldsNothing(Fresh(n).flushers, p);
    }
  }

  lemma {:induction false} IdleHoldsNothing(fs: seq<Flusher>, p: Payload)
    requires forall i | 0 <= i < |fs| :: fs[i] == Idle
    ensures Held(fs, p) == 0
  {
    if fs == [] {
    } else {
      IdleHoldsNothing(fs[1..], p);
    }
  }

  /** The payloads that were handed in, read off the run. */
  function Submissions(steps: seq<Step>): multiset<Payload> {
    if steps == [] then multiset{}
    else (if steps[0].Submit? then multiset{steps[0].payload} else multiset{}) + Submissions(steps[1..])
  }

  /** The payload that an attempt is about: the one handed in, or the first that this flush has not tried yet. */
  function Accepts(s: Outbox, step: Step): multiset<Payload> {
    if !Enabled(s, step) then multiset{}
    else
      match step
      case Submit(p, true) => multiset{p}
      case TryNext(f, true) => multiset{s.flushers[f].rest[0].payload}
      case _ => multiset{}
  }

  /** The payloads whose attempt succeeded, read off the run. */
  function Accepted(s: Outbox, steps: seq<Step>): multiset<Payload>
    decreases |steps|
  {
    if steps == [] then multiset{}
    else Accepts(s, steps[0]) + Accepted(if Enabled(s, steps[0]) then Apply(s, steps[0]) else s, steps[1..])
  }

  lemma {:induction false} HistoryIsTrue(s: Outbox, steps: seq<Step>)
    ensures AfterSteps(s, steps).sent == s.sent + Accepted(s, steps)
    ensures AfterSteps(s, steps).submitted == s.submitted + Submissions(steps)
    decreases |steps|
  {
    if steps == [] {
    } else {
      HistoryIsTrue(if Enabled(s, steps[0]) then Apply(s, steps[0]) else s, steps[1..]);
    }
  }

  /** Queued, in the hands of a sender, or with a flush. */
  function Waiting(s: Outbox, p: Payload): nat {
    Copies(s.queue, p) + s.inHand[p] + Held(s.flushers, p)
  }

  /** In every run a payload waits exactly as often as it was handed in and no attempt with it has succeeded yet. */
  lemma WaitsUntilAccepted(flushers: nat, steps: seq<Step>, p: Payload)
    ensures var s := Fresh(flushers);
            Waiting(AfterSteps(s, steps), p) + Accepted(s, steps)[p] == Submissions(steps)[p]
  {
    hide Enabled, Apply, Fresh;
    var s := Fresh(flushers);
    FreshIsConserved(flushers);
    ImportantSendsAreNeverLost(s, steps);
    assert Balanced(AfterSteps(s, steps), p);
    HistoryIsTrue(s, steps);
    FreshHasNoHistory(flushers);
  }

  lemma FreshHasNoHistory(flushers: nat)
    ensures Fresh(flushers).sent == multiset{} && Fresh(flushers).submitted == multiset{}
  {
  }

  // ----------------------------------------------------------------------- order

  ghost predicate InOrder(q: seq<Queued>) {
    forall i, j | 0 <= i < j < |q| :: q[i].number < q[j].number
  }

  /** Everything unsent, in the order in which the one flusher would leave it. */
  function Unsent(s: Outbox): seq<Queued>
    requires |s.flushers| == 1
  {
    match s.flushers[0]
    case Idle => s.queue
    case Flushing(rest, kept) => kept + rest + s.queue
  }

  ghost predicate Ordered(s: Outbox) {
    |s.flushers| == 1 && InOrder(Unsent(s)) && forall q | q in Unsent(s) :: q.number < s.appended
  }

  lemma StepKeepsOrder(s: Outbox, step: Step)
    requires Enabled(s, step) && Ordered(s)
    ensures Ordered(Apply(s, step))
  {
    var u := Unsent(s);
    var v := Unsent(Apply(s, step));
    hide InOrder;
    match step
    case Submit(p, ok) =>
    case Append(p) =>
      assert v == u + [Queued(p, s.appended)];
      AppendKeepsOrder(u, Queued(p, s.appended));
    case Take(f) =>
      assert v == [] + s.queue + [] == u;
    case TryNext(f, ok) => TryKeepsOrder(s, ok);
    case PutBack(f) =>
      assert u == s.flushers[0].kept + [] + s.queue == v;
  }

  lemma AppendKeepsOrder(u: seq<Queued>, q: Queued)
    requires InOrder(u) && forall x | x in u :: x.number < q.number
    ensures InOrder(u + [q])
  {
  }

  lemma TryKeepsOrder(s: Outbox, ok: bool)
    requires Enabled(s, TryNext(0, ok)) && Ordered(s)
    ensures Ordered(Apply(s, TryNext(0, ok)))
  {
    hide InOrder;
    var u := Unsent(s);
    var v := Unsent(Apply(s, TryNext(0, ok)));
    var Flushing(rest, kept) := s.flushers[0];
    if ok {
      assert v == u[..|kept|] + u[|kept| + 1..];
      DropKeepsOrder(u, |kept|);
    } else {
      assert (kept + [rest[0]]) + rest[1..] == kept + rest;
      assert v == u;
    }
  }

  lemma DropKeepsOrder(u: seq<Queued>, k: nat)
    requires InOrder(u) && k < |u|
    ensures InOrder(u[..k] + u[k + 1..])
    ensures forall q | q in u[..k] + u[k + 1..] :: q in u
  {
    var v := u[..k] + u[k + 1..];
    forall i, j | 0 <= i < j < |v|
      ensures v[i].number < v[j].number
    {
      assert v[i] == u[if i < k then i else i + 1] && v[j] == u[if j < k then j else j + 1];
    }
  }

  /** With one flusher at a time, what waits is always in the order in which it was queued. */
  lemma {:induction false} OneFlusherKeepsOrder(s: Outbox, steps: seq<Step>)
    requires Ordered(s)
    ensures Ordered(AfterSteps(s, steps))
    decreases |steps|
  {
    if steps == [] {
    } else {
      var step := steps[0];
      if Enabled(s, step) {
        StepKeepsOrder(s, step);
        OneFlusherKeepsOrder(Apply(s, step), steps[1..]);
      } else {
        OneFlusherKeepsOrder(s, steps[1..]);
      }
    }
  }

  lemma FreshIsOrdered()
    ensures Ordered(Fresh(1))
  {
  }

  // ------------------------------------------------------- the order under any number of flushes

  /** What a flush would leave if the rest of it failed as well. */
  function Holding(f: Flusher): seq<Queued> {
    match f
    case Idle => []
    case Flushing(rest, kept) => kept + rest
  }

  /** Each list of payloads is in order by itself. */
  ghost predicate Sorted(s: Outbox) {
    && InOrder(s.queue) && (forall q | q in s.queue :: q.number < s.appended)
    && forall i | 0 <= i < |s.flushers| ::
         InOrder(Holding(s.flushers[i])) && forall q | q in Holding(s.flushers[i]) :: q.number < s.appended
  }

  /** All that is put back was queued before all that waits. */
  ghost predicate Clean(s: Outbox, f: nat)
    requires Enabled(s, PutBack(f))
  {
    var kept := s.flushers[f].kept;
    kept == [] || s.queue == [] || kept[|kept| - 1].number < s.queue[0].number
  }

  lemma PutBackKeepsOrder(s: Outbox, f: nat)
    requires Enabled(s, PutBack(f)) && Sorted(s)
    ensures InOrder(Apply(s, PutBack(f)).queue) <==> Clean(s, f)
    ensures Clean(s, f) ==> Sorted(Apply(s, PutBack(f)))
  {
    var kept, q := s.flushers[f].kept, s.queue;
    assert Holding(s.flushers[f]) == kept + [] == kept;
    var r := Apply(s, PutBack(f));
    if kept != [] && q != [] {
      assert (kept + q)[|kept| - 1] == kept[|kept| - 1] && (kept + q)[|kept|] == q[0];
    }
    forall x | x in r.queue
      ensures x.number < s.appended
    {
      assert x in kept || x in q;
    }
  }

  lemma OtherStepsStaySorted(s: Outbox, step: Step)
    requires Enabled(s, step) && Sorted(s) && !step.PutBack?
    ensures Sorted(Apply(s, step))
  {
    hide InOrder;
    var r := Apply(s, step);
    match step
    case Submit(_, _) =>
    case Append(p) => AppendKeepsOrder(s.queue, Queued(p, s.appended));
    case Take(f) =>
      assert Holding(Flushing(s.queue, [])) == [] + s.queue == s.queue;
      assert InOrder([]) by { NothingIsInOrder(); }
    case TryNext(f, ok) =>
      var Flushing(rest, kept) := s.flushers[f];
      var u := kept + rest;
      if ok {
        DropKeepsOrder(u, |kept|);
        assert Holding(r.flushers[f]) == u[..|kept|] + u[|kept| + 1..];
      } else {
        assert Holding(r.flushers[f]) == (kept + [rest[0]]) + rest[1..] == u;
      }
  }

  lemma NothingIsInOrder()
    ensures InOrder([])
  {
  }

  /** The queue is in order in every state of the run. */
  ghost predicate AlwaysInOrder(s: Outbox, steps: seq<Step>)
    decreases |steps|
  {
    InOrder(s.queue)
    && (steps != [] ==> AlwaysInOrder(if Enabled(s, steps[0]) then Apply(s, steps[0]) else s, steps[1..]))
  }

  /** Every put-back of the run is clean when it happens. */
  ghost predicate AlwaysClean(s: Outbox, steps: seq<Step>)
    decreases |steps|
  {
    steps != [] ==>
      && (steps[0].PutBack? && Enabled(s, steps[0]) ==> Clean(s, steps[0].f))
      && AlwaysClean(if Enabled(s, steps[0]) then Apply(s, steps[0]) else s, steps[1..])
  }

  /**
   With any number of flushes, overlapping or not, the queue is in order throughout if and only if every flush that puts
   something back puts it in front of payloads that were queued later.
   */
  lemma {:induction false} OrderIsKeptExactly(s: Outbox, steps: seq<Step>)
    requires Sorted(s)
    ensures AlwaysInOrder(s, steps) <==> AlwaysClean(s, steps)
    decreases |steps|
  {
    hide Sorted, InOrder, Clean, Apply, Enabled;
    if steps == [] {
      assert InOrder(s.queue) by { SortedQueue(s); }
    } else {
      var step := steps[0];
      var r := if Enabled(s, step) then Apply(s, step) else s;
      SortedQueue(s);
      if !Enabled(s, step) {
        OrderIsKeptExactly(s, steps[1..]);
      } else if step.PutBack? {
        PutBackKeepsOrder(s, step.f);
        if Clean(s, step.f) {
          OrderIsKeptExactly(r, steps[1..]);
        } else {
          assert !AlwaysInOrder(r, steps[1..]);
        }
      } else {
        OtherStepsStaySorted(s, step);
        OrderIsKeptExactly(r, steps[1..]);
      }
    }
  }

  lemma SortedQueue(s: Outbox)
    requires Sorted(s)
    ensures InOrder(s.queue)
  {
  }

  lemma FreshIsSorted(n: nat)
    ensures Sorted(Fresh(n))
  {
  }

  function TwoUnsent(queue: seq<Queued>, f: Flusher, g: Flusher): Outbox {
    Outbox(queue, multiset{}, [f, g], 2, multiset{"a", "b"}, multiset{})
  }

  /** If two flushes overlapped, fail, and the one that took first put back first, the queue would be out of order. */
  lemma TwoFlushersReorder()
    ensures var start := AfterSteps(Fresh(2), [Submit("a", false), Append("a"), Take(0), Submit("b", false), Append("b")]);
            AfterSteps(start, [Take(1), TryNext(0, false), TryNext(1, false), PutBack(0), PutBack(1)])
            == TwoUnsent([Queued("b", 1), Queued("a", 0)], Idle, Idle)
  {
    hide Apply, TwoUnsent, Enabled;
    MidwayIsReached();
    CrossingPutBacks();
    var a, b := Queued("a", 0), Queued("b", 1);
    var s1 := TwoUnsent([], Flushing([a], []), Flushing([b], []));
    var s2 := TwoUnsent([], Flushing([], [a]), Flushing([b], []));
    var s3 := TwoUnsent([], Flushing([], [a]), Flushing([], [b]));
    Unroll(TwoUnsent([b], Flushing([a], []), Idle), Take(1),
           [TryNext(0, false), TryNext(1, false), PutBack(0), PutBack(1)]);
    Unroll(s1, TryNext(0, false), [TryNext(1, false), PutBack(0), PutBack(1)]);
    Unroll(s2, TryNext(1, false), [PutBack(0), PutBack(1)]);
    Unroll(s3, PutBack(0), [PutBack(1)]);
    Unroll(TwoUnsent([a], Idle, Flushing([], [b])), PutBack(1), []);
  }

  /** If the one that took last puts back first, they overlap as well and the order is kept. */
  lemma NestedFlushersKeepOrder()
    ensures var a, b := Queued("a", 0), Queued("b", 1);
            AfterSteps(TwoUnsent([], Flushing([], [a]), Flushing([], [b])), [PutBack(1), PutBack(0)])
            == TwoUnsent([a, b], Idle, Idle)
  {
    var a, b := Queued("a", 0), Queued("b", 1);
    var s3 := TwoUnsent([], Flushing([], [a]), Flushing([], [b]));
    var s4 := TwoUnsent([b], Flushing([], [a]), Idle);
    assert [Flushing([], [a]), Flushing([], [b])][1 := Idle] == [Flushing([], [a]), Idle] && [b] + [] == [b];
    assert Apply(s3, PutBack(1)) == s4;
    assert [Flushing([], [a]), Idle][0 := Idle] == [Idle, Idle] && [a] + [b] == [a, b];
    assert Apply(s4, PutBack(0)) == TwoUnsent([a, b], Idle, Idle);
    Unroll(s3, PutBack(1), [PutBack(0)]);
    Unroll(s4, PutBack(0), []);
  }

  /** The five steps that cross. */
  lemma CrossingPutBacks()
    ensures var a, b := Queued("a", 0), Queued("b", 1);
            var s0 := TwoUnsent([b], Flushing([a], []), Idle);
            var s1 := TwoUnsent([], Flushing([a], []), Flushing([b], []));
            var s2 := TwoUnsent([], Flushing([], [a]), Flushing([b], []));
            var s3 := TwoUnsent([], Flushing([], [a]), Flushing([], [b]));
            var s4 := TwoUnsent([a], Idle, Flushing([], [b]));
            && Enabled(s0, Take(1)) && Apply(s0, Take(1)) == s1
            && Enabled(s1, TryNext(0, false)) && Apply(s1, TryNext(0, false)) == s2
            && Enabled(s2, TryNext(1, false)) && Apply(s2, TryNext(1, false)) == s3
            && Enabled(s3, PutBack(0)) && Apply(s3, PutBack(0)) == s4
            && Enabled(s4, PutBack(1)) && Apply(s4, PutBack(1)) == TwoUnsent([b, a], Idle, Idle)
  {
    var a, b := Queued("a", 0), Queued("b", 1);
    var none: seq<Queued> := [];
    assert [Flushing([a], []), Idle][1 := Flushing([b], [])] == [Flushing([a], []), Flushing([b], [])];
    assert [a][1..] == none && [b][1..] == none && none + [a] == [a] && none + [b] == [b];
    assert [Flushing([a], []), Flushing([b], [])][0 := Flushing([], [a])] == [Flushing([], [a]), Flushing([b], [])];
    assert [Flushing([], [a]), Flushing([b], [])][1 := Flushing([], [b])] == [Flushing([], [a]), Flushing([], [b])];
    assert [Flushing([], [a]), Flushing([], [b])][0 := Idle] == [Idle, Flushing([], [b])] && [a] + none == [a];
    assert [Idle, Flushing([], [b])][1 := Idle] == [Idle, Idle] && [b] + [a] == [b, a];
  }

  lemma MidwayIsReached()
    ensures AfterSteps(Fresh(2), [Submit("a", false), Append("a"), Take(0), Submit("b", false), Append("b")])
         == TwoUnsent([Queued("b", 1)], Flushing([Queued("a", 0)], []), Idle)
  {
    var s1 := Apply(Fresh(2), Submit("a", false));
    assert s1.inHand == multiset{"a"} && s1.submitted == multiset{"a"} && s1.flushers == [Idle, Idle];
    var s2 := Apply(s1, Append("a"));
    assert s2.inHand == multiset{} && s2.queue == [Queued("a", 0)];
    var s3 := Apply(s2, Take(0));
    assert s3.flushers == [Flushing([Queued("a", 0)], []), Idle];
    var s4 := Apply(s3, Submit("b", false));
    assert s4.inHand == multiset{"b"} && s4.submitted == multiset{"a", "b"};
    var s5 := Apply(s4, Append("b"));
    assert s5.inHand == multiset{};
    assert s5 == TwoUnsent([Queued("b", 1)], Flushing([Queued("a", 0)], []), Idle);
    hide Apply, TwoUnsent;
    Unroll(Fresh(2), Submit("a", false), [Append("a"), Take(0), Submit("b", false), Append("b")]);
    Unroll(s1, Append("a"), [Take(0), Submit("b", false), Append("b")]);
    Unroll(s2, Take(0), [Submit("b", false), Append("b")]);
    Unroll(s3, Submit("b", false), [Append("b")]);
    Unroll(s4, Append("b"), []);
  }

  lemma Unroll(s: Outbox, step: Step, steps: seq<Step>)
    requires Enabled(s, step)
    ensures AfterSteps(s, [step] + steps) == AfterSteps(Apply(s, step), steps)
  {
    assert ([step] + steps)[1..] == steps;
  }

  // ------------------------------------------------------------------ the program

  /** What a flush of q keeps when attempt i ends with outcomes[i]. */
  function Failed(q: seq<Queued>, outcomes: seq<bool>): seq<Queued>
    requires |outcomes| == |q|
  {
    if q == [] then [] else (if outcomes[0] then [] else [q[0]]) + Failed(q[1..], outcomes[1..])
  }

  lemma {:induction false} FailedAppend(q: seq<Queued>, outcomes: seq<bool>, i: nat)
    requires |outcomes| == |q| && i < |q|
    ensures Failed(q[..i + 1], outcomes[..i + 1])
         == Failed(q[..i], outcomes[..i]) + if outcomes[i] then [] else [q[i]]
  {
    if i == 0 {
      assert q[..1][1..] == [] && outcomes[..1][1..] == [];
      assert Failed(q[..1], outcomes[..1]) == (if outcomes[0] then [] else [q[0]]) + [];
    } else {
      FailedAppend(q[1..], outcomes[1..], i - 1);
      assert q[..i + 1][1..] == q[1..][..i] && outcomes[..i + 1][1..] == outcomes[1..][..i];
      assert q[..i][1..] == q[1..][..i - 1] && outcomes[..i][1..] == outcomes[1..][..i - 1];
    }
  }

  /** The engine's side: its queue, updated in place, and what its threads hold between two locked regions. */
  class Engine {
    var pending: seq<Queued>
    var inHand: multiset<Payload>
    var flushers: seq<Flusher>
    var appended: nat               // history only, like the two below
    var submitted: multiset<Payload>
    var sent: multiset<Payload>

    function State(): Outbox
      reads this
    {
      Outbox(pending, inHand, flushers, appended, submitted, sent)
    }

    constructor (flushers: nat)
      ensures State() == Fresh(flushers)
    {
      pending, inHand, this.flushers := [], multiset{}, seq(flushers, _ => Idle);
      appended, submitted, sent := 0, multiset{}, multiset{};
    }

    /** `_send_important_dict`: one attempt; a failed payload stays in the caller's hands. */
    method SendImportant(p: Payload, ok: bool)
      modifies this
      ensures State() == Apply(old(State()), Submit(p, ok))
    {
      submitted := submitted + multiset{p};
      if ok {
        sent := sent + multiset{p};
        return;
      }
      inHand := inHand + multiset{p};
    }

    method AppendPending(p: Payload)
      requires p in inHand
      modifies this
      ensures State() == Apply(old(State()), Append(p))
    {
      inHand := inHand - multiset{p};
      pending := pending + [Queued(p, appended)];
      appended := appended + 1;
    }

    method TakePending(f: nat)
      requires Enabled(State(), Take(f))
      modifies this`pending, this`flushers
      ensures State() == Apply(old(State()), Take(f))
    {
      var taken;
      taken, pending := pending, [];
      flushers := flushers[f := Flushing(taken, [])];
    }

    method TryOne(f: nat, ok: bool)
      requires Enabled(State(), TryNext(f, ok))
      modifies this`flushers, this`sent
      ensures State() == Apply(old(State()), TryNext(f, ok))
    {
      var Flushing(rest, kept) := flushers[f];
      if ok {
        sent := sent + multiset{rest[0].payload};
      } else {
        kept := kept + [rest[0]];
      }
      flushers := flushers[f := Flushing(rest[1..], kept)];
    }

    method PutBackPending(f: nat)
      requires Enabled(State(), PutBack(f))
      modifies this`pending, this`flushers
      ensures State() == Apply(old(State()), PutBack(f))
    {
      var kept := flushers[f].kept;
      if kept != [] {
        pending := kept + pending;
      }
      flushers := flushers[f := Idle];
      assert [] + old(pending) == old(pending);
    }

    /** The attempts of one flush, in order. */
    method TryAll(f: nat, outcomes: seq<bool>)
      requires f < |flushers| && flushers[f].Flushing? && flushers[f].kept == [] && |outcomes| == |flushers[f].rest|
      modifies this`flushers, this`sent
      ensures flushers == old(flushers)[f := Flushing([], Failed(old(flushers[f].rest), outcomes))]
      ensures old(Conserved(State())) ==> Conserved(State())
    {
      hide Conserved, Failed;
      ghost var taken := flushers[f].rest;
      var i := 0;
      assert Failed(taken[..0], outcomes[..0]) == [] by { NothingFailed(); }
      while i < |outcomes|
        invariant 0 <= i <= |outcomes| && f < |flushers|
        invariant flushers == old(flushers)[f := Flushing(taken[i..], Failed(taken[..i], outcomes[..i]))]
        invariant old(Conserved(State())) ==> Conserved(State())
      {
        FailedAppend(taken, outcomes, i);
        if Conserved(State()) {
          StepConserves(State(), TryNext(f, outcomes[i]));
        }
        assert taken[i..][0] == taken[i] && taken[i..][1..] == taken[i + 1..];
        assert Failed(taken[..i], outcomes[..i]) + [] == Failed(taken[..i], outcomes[..i]);
        TryOne(f, outcomes[i]);
        i := i + 1;
      }
      assert taken[..i] == taken && outcomes[..i] == outcomes && taken[i..] == [];
    }

    lemma NothingFailed()
      ensures Failed([], []) == []
    {
    }

    /** `_flush_pending_important_sends` when nothing else runs meanwhile: what failed stays, in the same order. */
    method Flush(f: nat, outcomes: seq<bool>)
      requires Enabled(State(), Take(f)) && |outcomes| == |pending|
      modifies this
      ensures pending == Failed(old(pending), outcomes)
      ensures flushers == old(flushers) && inHand == old(inHand) && submitted == old(submitted)
      ensures old(Conserved(State())) ==> Conserved(State())
    {
      hide Conserved, Failed;
      if Conserved(State()) {
        StepConserves(State(), Take(f));
      }
      TakePending(f);
      TryAll(f, outcomes);
      if Conserved(State()) {
        StepConserves(State(), PutBack(f));
      }
      PutBackPending(f);
      assert pending == Failed(old(pending), outcomes) + [];
    }
  }
}
