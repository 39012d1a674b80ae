/** From document to report: what a clean validation promises about every run of the tree that is built from it. */
module TaskRuns {
  import opened Wrappers
  import opened TreeDocuments
  import opened TreeChecking
  import opened TreeAgreement
  import BT = BehaviourTrees
  import TI = TreeInvariant
  import RT = RunTraces
  import RL = RunLoop
  import NR = NodeRuns
  import NT = NodesInTrees

  /** The builder numbers its nodes in the order in which `iterate()` visits them. */
  lemma {:induction false} NodesAreNumbered(t: BT.Tree, lo: nat)
    requires NumberedFrom(t, lo)
    ensures |RT.Nodes(t)| == Size(t) && forall k | 0 <= k < Size(t) :: RT.Nodes(t)[k].id == lo + k
    decreases t, 0
  {
    AllNodesAreNumbered(t.children, lo);
  }

  lemma {:induction false} AllNodesAreNumbered(ts: seq<BT.Tree>, lo: nat)
    requires AllNumberedFrom(ts, lo)
    ensures |RT.NodesOf(ts)| == SizeAll(ts) && forall k | 0 <= k < SizeAll(ts) :: RT.NodesOf(ts)[k].id == lo + k
    decreases ts, 1
  {
    if ts == [] {
    } else {
      NodesAreNumbered(ts[0], lo);
      AllNodesAreNumbered(ts[1..], lo + Size(ts[0]));
    }
  }

  /**
   A document that validates cleanly, and in which the builder notices nothing else, builds; whatever its leaves, ports
   and clock do, the live view is right after every round of every run, the timeline keeps what it should, and a run that
   ended other than by the tick limit left no node RUNNING.
   */
  lemma ValidatedTasksRunFaithfully<W>(site: Site, root: Element, subtrees: map<string, Source>, env: BT.Env<W>,
                                       limits: RL.Limits, polls: seq<RL.Poll<W>>, w: W)
    requires FirstError(Validate(site, root, subtrees).problems).None?
    requires NothingElse(Strict(site, root, subtrees).problems)
    ensures var b := BuildTree(site, root, subtrees);
            && b.Built? && BT.Fits(BT.Skeleton(b.value))
            && var r := RL.Loop(env, limits, polls, RL.Start(b.value, w));
               && RT.Right(r.state.trace.sent, RT.Nodes(r.state.t)) && RT.Genuine(r.state.trace.sent)
               && RT.Kept(r.state.trace, RT.Shown(r.state.trace.sent))
               && (r.Ended? && r.stop != Some(RL.TickLimit) ==> TI.Quiet(r.state.t))
  {
    hide BT.Fits, BT.Skeleton, TI.Unstarted, TI.AsBuilt, NumberedFrom, Size, Elements, Shallow, SingleWrapped, RL.Loop, RT.Nodes,
         Validate, Strict, NothingElse, BuildTree, FirstError, RT.Right, RT.Genuine, RT.Kept, RT.Shown;
    CleanMeansSmall(site, root, subtrees);
    var t := BuildTree(site, root, subtrees).value;
    NodesAreNumbered(t, 0);
    TI.BuiltIsUnstarted(t);
    RL.TraceIsFaithful(env, limits, polls, t, w);
    RL.EndedRunsAreQuiet(env, limits, polls, t, w);
  }

  /**
   And each of its nodes, at any path, keeps the promise of its kind through every run of the loop: the loop is a run of
   the tree, of which the node has its own part, in the environment and between the worlds of the loop's ticks.
   */
  lemma ValidatedNodesKeepTheirPromise<W>(site: Site, root: Element, subtrees: map<string, Source>, env: BT.Env<W>,
                                          limits: RL.Limits, polls: seq<RL.Poll<W>>, w: W, path: seq<nat>)
    returns (events: seq<TI.Event<W>>, own: seq<seq<TI.Event<W>>>)
    requires FirstError(Validate(site, root, subtrees).problems).None?
    requires NothingElse(Strict(site, root, subtrees).problems)
    requires var b := BuildTree(site, root, subtrees); b.Built? ==> TI.Reaches(b.value, path)
    ensures var b := BuildTree(site, root, subtrees);
            && b.Built? && BT.Fits(BT.Skeleton(b.value)) && TI.AsBuilt(b.value)
            && RL.IsRunOf(env, polls, b.value, w, events, RL.Loop(env, limits, polls, RL.Start(b.value, w)).state.t)
            && NR.OwnRun(b.value, events, path, own) && NT.KeepsPromise(b.value, events, path, own)
  {
    hide BT.Fits, BT.Skeleton, TI.AsBuilt, NumberedFrom, Size, Elements, Shallow, SingleWrapped, TI.After, TI.Reaches,
         TI.At, NT.KeepsPromise, NR.OwnRun, RL.IsRunOf, RL.Loop, Validate, Strict, NothingElse, BuildTree, FirstError;
    CleanMeansSmall(site, root, subtrees);
    var t := BuildTree(site, root, subtrees).value;
    events := RL.EventsOf(env, limits, polls, RL.Start(t, w));
    RL.LoopIsARun(env, limits, polls, RL.Start(t, w));
    own := NT.EveryNodeKeepsItsPromise(t, events, path);
  }
}
