/** The executor as the program runs it, on node objects and with the trace kept in its own variables. */
module Executors {
  import opened Wrappers
  import BT = BehaviourTrees
  import BO = BehaviourObjects
  import opened RunTraces
  import RL = RunLoop

  class Executor {
    const root: BO.Behaviour
    var previous: map<nat, BT.Status>
    var sent: seq<Change>
    var timeline: seq<Change>
    var tail: seq<Change>
    var dropped: nat
    var ticks: nat

    constructor (root: BO.Behaviour)
      ensures this.root == root && ticks == 0 && Trace() == EMPTY
    {
      this.root, ticks := root, 0;
      previous, sent, timeline, tail, dropped := map[], [], [], [], 0;
    }

    ghost function Trace(): Trace
      reads this
    {
      RunTraces.Trace(previous, sent, timeline, tail, dropped)
    }

    ghost function State<W>(w: W): RL.State<W>
      requires root.Valid()
      reads this, root.repr
    {
      RL.State(root.Model(), w, Trace(), ticks)
    }

    /** `_record_change` */
    method RecordChange(c: Change)
      modifies this`timeline, this`tail, this`dropped
      ensures Trace() == Recorded(old(Trace()), c)
    {
      if c.synthetic {
        return;
      }
      if |timeline| < MAX_TIMELINE_HEAD {
        timeline := timeline + [c];
      } else {
        if |tail| == MAX_TIMELINE_TAIL {
          dropped := dropped + 1;
          tail := tail[1..];
        }
        tail := tail + [c];
      }
    }

    method Look(n: BO.Behaviour)
      requires n.Valid()
      modifies this
      ensures Trace() == Looked(old(Trace()), n.Model()) && ticks == old(ticks)
    {
      var prev := if n.id in previous then previous[n.id] else BT.Invalid;
      if prev != n.status {
        var c := Change(n.id, prev, n.status, n.kind.Conditional?);
        sent := sent + [c];
        RecordChange(c);
        previous := previous[n.id := n.status];
      }
    }

    /** `_on_post_tick`: a look at every node, children first. */
    method OnPostTick(n: BO.Behaviour)
      requires n.Valid()
      modifies this
      ensures Trace() == PostTick(old(Trace()), n.Model()) && ticks == old(ticks)
      decreases n.repr
    {
      ghost var t := n.Model();
      var i := 0;
      assert NodesOf([]) == [];
      while i < |n.children|
        invariant 0 <= i <= |n.children| && ticks == old(ticks) && n.Model() == t
        invariant LookedAt(Trace(), NodesOf(t.children[i..])) == LookedAt(old(Trace()), NodesOf(t.children))
      {
        var rest := t.children[i..];
        assert rest[0] == n.children[i].Model() && rest[1..] == t.children[i + 1..];
        LookInTwo(Trace(), Nodes(rest[0]), NodesOf(rest[1..]));
        OnPostTick(n.children[i]);
        i := i + 1;
      }
      assert t.children[i..] == [];
      LookInTwo(old(Trace()), NodesOf(t.children), [t]);
      LookOnce(Trace(), t);
      Look(n);
    }

    lemma LookOnce(r: Trace, t: BT.Tree)
      ensures LookedAt(r, [t]) == Looked(r, t)
    {
      assert [t][1..] == [];
    }

    /** `_tick_loop`, for as many rounds as there are polls. */
    method TickLoop<W>(env: BT.Env<W>, limits: RL.Limits, polls: seq<RL.Poll<W>>, w: W)
        returns (w': W, ended: bool, stop: Option<RL.Stop>, status: BT.Status)
      requires root.Valid()
      modifies this, root.repr
      ensures RL.Loop(env, limits, polls, old(State(w)))
           == if ended then RL.Ended(State(w'), stop, status) else RL.Going(State(w'))
    {
      hide BT.Tick, BT.Stop, PostTick;
      w', stop, status := w, None, root.status;
      var k := 0;
      while k < |polls|
        invariant 0 <= k <= |polls|
        invariant RL.Loop(env, limits, polls[k..], State(w')) == RL.Loop(env, limits, polls, old(State(w)))
      {
        assert polls[k..][0] == polls[k] && polls[k..][1..] == polls[k + 1..];
        w' := polls[k].meanwhile(w');
        stop := RL.Reason(limits, polls[k].cancelled, env.now(w'), ticks);
        if stop.Some? {
          status := root.status;
          if stop != Some(RL.TickLimit) {
            w' := root.Stop(env, BT.Invalid, w');
            OnPostTick(root);
          }
          return w', true, stop, status;
        }
        w' := root.Tick(env, w');
        OnPostTick(root);
        ticks := ticks + 1;
        if RL.Over(root.status) {
          return w', true, None, root.status;
        }
        k := k + 1;
      }
      assert polls[k..] == [];
      ended, stop, status := false, None, root.status;
    }
  }
}
