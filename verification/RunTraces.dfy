/**
 The status trace of a run: the live updates sent after every tick, and the bounded timeline kept for the report.
 The trace is faithful when a listener who knows nothing but the updates knows the status of every node.
 */
module RunTraces {
  import BT = BehaviourTrees

  const MAX_TIMELINE_HEAD := 400
  const MAX_TIMELINE_TAIL := 150

  datatype Change = Change(node: nat, prev: BT.Status, curr: BT.Status, synthetic: bool)

  datatype Trace = Trace(
    previous: map<nat, BT.Status>,
    sent: seq<Change>,       // the live updates
    timeline: seq<Change>,
    tail: seq<Change>,       // a queue of at most MAX_TIMELINE_TAIL
    dropped: nat
  )

  const EMPTY := Trace(map[], [], [], [], 0)

  /** `iterate()`: every node, children before their parent. */
  function Nodes(t: BT.Tree): seq<BT.Tree>
    decreases t, 0
  {
    NodesOf(t.children) + [t]
  }

  function NodesOf(ts: seq<BT.Tree>): seq<BT.Tree>
    decreases ts, 1
  {
    if ts == [] then [] else Nodes(ts[0]) + NodesOf(ts[1..])
  }

  function LastSeen(r: Trace, id: nat): BT.Status {
    if id in r.previous then r.previous[id] else BT.Invalid
  }

  /** `_record_change` */
  function Recorded(r: Trace, c: Change): Trace {
    if c.synthetic then r
    else if |r.timeline| < MAX_TIMELINE_HEAD then r.(timeline := r.timeline + [c])
    else if |r.tail| == MAX_TIMELINE_TAIL then r.(tail := r.tail[1..] + [c], dropped := r.dropped + 1)
    else r.(tail := r.tail + [c])
  }

  /** The body of `_on_post_tick` for one node. */
  function Looked(r: Trace, node: BT.Tree): Trace {
    var prev := LastSeen(r, node.id);
    if prev == node.status then r
    else
      var c := Change(node.id, prev, node.status, node.kind.Conditional?);
      Recorded(r.(sent := r.sent + [c]), c).(previous := r.previous[node.id := node.status])
  }

  function LookedAt(r: Trace, nodes: seq<BT.Tree>): Trace
    decreases |nodes|
  {
    if nodes == [] then r else LookedAt(Looked(r, nodes[0]), nodes[1..])
  }

  /** `_on_post_tick` */
  function PostTick(r: Trace, t: BT.Tree): Trace {
    LookedAt(r, Nodes(t))
  }

  // ----------------------------------------------------------------- the listener

  /** What a listener who has heard these updates takes the status of a node to be. */
  function Believed(sent: seq<Change>, id: nat): BT.Status {
    if sent == [] then BT.Invalid
    else if sent[|sent| - 1].node == id then sent[|sent| - 1].curr
    else Believed(sent[..|sent| - 1], id)
  }

  /** Every update is a real change, and starts from what the listener already believes. */
  ghost predicate Genuine(sent: seq<Change>) {
    forall k | 0 <= k < |sent| :: sent[k].prev == Believed(sent[..k], sent[k].node) && sent[k].prev != sent[k].curr
  }

  /** The updates about real nodes. */
  function Shown(sent: seq<Change>): seq<Change> {
    if sent == [] then []
    else Shown(sent[..|sent| - 1]) + if sent[|sent| - 1].synthetic then [] else [sent[|sent| - 1]]
  }

  function Min(a: nat, b: nat): nat { if a < b then a else b }

  /** The timeline is the first updates and the last of the later ones; the rest was dropped. */
  ghost predicate Kept(r: Trace, shown: seq<Change>) {
    var head := Min(|shown|, 400);
    var tail := Min(|shown| - head, 150);
    && r.timeline == shown[..head]
    && r.tail == shown[|shown| - tail..]
    && r.dropped + head + tail == |shown|
  }

  ghost predicate Faithful(r: Trace) {
    && (forall id | 0 <= id :: LastSeen(r, id) == Believed(r.sent, id))
    && Genuine(r.sent)
    && Kept(r, Shown(r.sent))
  }

  lemma EmptyIsFaithful()
    ensures Faithful(EMPTY)
  {
    hide Believed, Shown, Genuine, Kept, LastSeen;
    HeardNothing();
    KeptNothing();
    assert EMPTY.sent == [];
  }

  lemma HeardNothing()
    ensures Shown([]) == [] && Genuine([])
    ensures forall id :: Believed([], id) == BT.Invalid && LastSeen(EMPTY, id) == BT.Invalid
  {
  }

  lemma KeptNothing()
    ensures Kept(EMPTY, [])
  {
  }

  lemma HearOne(sent: seq<Change>, c: Change)
    ensures forall id :: Believed(sent + [c], id) == if id == c.node then c.curr else Believed(sent, id)
    ensures Shown(sent + [c]) == Shown(sent) + if c.synthetic then [] else [c]
    ensures Genuine(sent) && c.prev == Believed(sent, c.node) && c.prev != c.curr ==> Genuine(sent + [c])
  {
    var more := sent + [c];
    assert more[..|sent|] == sent;
    assert forall k | 0 <= k < |sent| :: more[..k] == sent[..k];
  }

  lemma RecordIsKept(r: Trace, shown: seq<Change>, c: Change)
    requires Kept(r, shown)
    ensures Kept(Recorded(r, c), shown + if c.synthetic then [] else [c])
  {
    if !c.synthetic {
      var more := shown + [c];
      var tail := Min(|more| - Min(|more|, MAX_TIMELINE_HEAD), MAX_TIMELINE_TAIL);
      if |shown| >= MAX_TIMELINE_HEAD {
        assert more[..MAX_TIMELINE_HEAD] == shown[..MAX_TIMELINE_HEAD];
        assert Recorded(r, c).tail == more[|more| - tail..];
      }
    } else {
      assert shown + [] == shown;
    }
  }

  lemma LookIsFaithful(r: Trace, node: BT.Tree)
    requires Faithful(r)
    ensures Faithful(Looked(r, node))
    ensures forall id :: Believed(Looked(r, node).sent, id)
                         == if id == node.id then node.status else Believed(r.sent, id)
  {
    hide Believed, Genuine, Shown, Kept, Recorded;
    var prev := LastSeen(r, node.id);
    if prev != node.status {
      var c := Change(node.id, prev, node.status, node.kind.Conditional?);
      HearOne(r.sent, c);
      RecordIsKept(r.(sent := r.sent + [c]), Shown(r.sent), c) by { Unmoved(r, r.sent + [c], Shown(r.sent)); }
      RecordKeepsTheRest(r.(sent := r.sent + [c]), c);
      Moved(Recorded(r.(sent := r.sent + [c]), c), r.previous[node.id := node.status], Shown(r.sent + [c]));
    }
  }

  lemma Unmoved(r: Trace, sent: seq<Change>, shown: seq<Change>)
    requires Kept(r, shown)
    ensures Kept(r.(sent := sent), shown)
  {
  }

  lemma Moved(r: Trace, previous: map<nat, BT.Status>, shown: seq<Change>)
    requires Kept(r, shown)
    ensures Kept(r.(previous := previous), shown)
  {
  }

  lemma RecordKeepsTheRest(r: Trace, c: Change)
    ensures Recorded(r, c).sent == r.sent && Recorded(r, c).previous == r.previous
  {
  }

  // --------------------------------------------------------------------- one tick

  ghost predicate Distinct(nodes: seq<BT.Tree>) {
    forall i, j | 0 <= i < j < |nodes| :: nodes[i].id != nodes[j].id
  }

  /** The nodes whose status is not what the listener believes, as updates. */
  function Differences(sent: seq<Change>, nodes: seq<BT.Tree>): seq<Change> {
    if nodes == [] then []
    else
      var n := nodes[0];
      var believed := Believed(sent, n.id);
      (if believed == n.status then [] else [Change(n.id, believed, n.status, n.kind.Conditional?)])
      + Differences(sent, nodes[1..])
  }

  /** The listener is right about these nodes. */
  ghost predicate Right(sent: seq<Change>, nodes: seq<BT.Tree>) {
    forall i | 0 <= i < |nodes| :: Believed(sent, nodes[i].id) == nodes[i].status
  }

  lemma {:induction false} SameBeliefs(a: seq<Change>, b: seq<Change>, nodes: seq<BT.Tree>)
    requires forall i | 0 <= i < |nodes| :: Believed(a, nodes[i].id) == Believed(b, nodes[i].id)
    ensures Differences(a, nodes) == Differences(b, nodes)
  {
    if nodes == [] {
    } else {
      SameBeliefs(a, b, nodes[1..]);
    }
  }

  /** A look over distinct nodes sends exactly the differences, in the order of the nodes. */
  lemma {:induction false} LookSendsTheDifferences(r: Trace, nodes: seq<BT.Tree>)
    requires Faithful(r) && Distinct(nodes)
    ensures Faithful(LookedAt(r, nodes))
    ensures LookedAt(r, nodes).sent == r.sent + Differences(r.sent, nodes)
    ensures Right(LookedAt(r, nodes).sent, nodes)
    ensures forall id :: (forall i | 0 <= i < |nodes| :: nodes[i].id != id)
                         ==> Believed(LookedAt(r, nodes).sent, id) == Believed(r.sent, id)
    decreases |nodes|
  {
    hide Believed, Faithful, Recorded;
    if nodes == [] {
      assert r.sent + [] == r.sent;
    } else {
      var n := nodes[0];
      var r1 := Looked(r, n);
      LookIsFaithful(r, n);
      LookSendsTheDifferences(r1, nodes[1..]);
      SameBeliefs(r1.sent, r.sent, nodes[1..]);
      FirstIsSent(r, n);
      var first := if Believed(r.sent, n.id) == n.status then []
                   else [Change(n.id, Believed(r.sent, n.id), n.status, n.kind.Conditional?)];
      assert (r.sent + first) + Differences(r.sent, nodes[1..]) == r.sent + (first + Differences(r.sent, nodes[1..]));
      assert Believed(LookedAt(r, nodes).sent, n.id) == n.status;
    }
  }

  lemma FirstIsSent(r: Trace, n: BT.Tree)
    requires Faithful(r)
    ensures Looked(r, n).sent
         == r.sent + if Believed(r.sent, n.id) == n.status then []
                     else [Change(n.id, Believed(r.sent, n.id), n.status, n.kind.Conditional?)]
  {
    hide Genuine, Kept, Believed;
    assert LastSeen(r, n.id) == Believed(r.sent, n.id);
    assert r.sent + [] == r.sent;
  }

  // ---------------------------------------------------------------- the order of nodes

  /** Looking is done in one pass however the nodes are grouped. */
  lemma {:induction false} LookInTwo(r: Trace, a: seq<BT.Tree>, b: seq<BT.Tree>)
    ensures LookedAt(r, a + b) == LookedAt(LookedAt(r, a), b)
    decreases |a|
  {
    if a == [] {
      assert a + b == b;
    } else {
      assert (a + b)[0] == a[0] && (a + b)[1..] == a[1..] + b;
      LookInTwo(Looked(r, a[0]), a[1..], b);
    }
  }

  /** Ids are unique in trees of the same shape together or not at all. */
  lemma {:induction false} SkeletonFixesIds(a: BT.Tree, b: BT.Tree)
    requires BT.Skeleton(a) == BT.Skeleton(b)
    ensures |Nodes(a)| == |Nodes(b)| && forall i | 0 <= i < |Nodes(a)| :: Nodes(a)[i].id == Nodes(b)[i].id
    decreases a, 0
  {
    var x, y := BT.Skeleton(a), BT.Skeleton(b);
    assert |a.children| == |x.children| == |y.children| == |b.children|;
    forall i | 0 <= i < |a.children|
      ensures BT.Skeleton(a.children[i]) == BT.Skeleton(b.children[i])
    {
      assert x.children[i] == y.children[i];
    }
    SkeletonsFixIds(a.children, b.children);
  }

  lemma {:induction false} SkeletonsFixIds(a: seq<BT.Tree>, b: seq<BT.Tree>)
    requires |a| == |b| && forall i | 0 <= i < |a| :: BT.Skeleton(a[i]) == BT.Skeleton(b[i])
    ensures |NodesOf(a)| == |NodesOf(b)| && forall i | 0 <= i < |NodesOf(a)| :: NodesOf(a)[i].id == NodesOf(b)[i].id
    decreases a, 1
  {
    hide BT.Skeleton;
    if a == [] {
    } else {
      SkeletonFixesIds(a[0], b[0]);
      SkeletonsFixIds(a[1..], b[1..]);
    }
  }

  lemma DistinctStays(a: BT.Tree, b: BT.Tree)
    requires BT.Skeleton(a) == BT.Skeleton(b) && Distinct(Nodes(a))
    ensures Distinct(Nodes(b))
  {
    hide Nodes, BT.Skeleton;
    SkeletonFixesIds(a, b);
  }
}
