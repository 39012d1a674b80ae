/** The two walks as the program makes them: with a stack, a dictionary of known trees and a list of problems. */
module TreeWalkers {
  import opened Wrappers
  import opened TreeDocuments
  import TC = TreeChecking
  import BT = BehaviourTrees
  import BO = BehaviourObjects

  /** What one walk needs beyond the document: known trees, and the trees being expanded right now. */
  class Context {
    const site: Site
    var stack: seq<string>
    var subtrees: map<string, Source>

    constructor (site: Site, subtrees: map<string, Source>)
      ensures this.site == site && stack == [] && this.subtrees == subtrees
    {
      this.site, this.stack, this.subtrees := site, [], subtrees;
    }

    /** `find_subtree` */
    method Find(id: string) returns (r: Lookup)
      modifies this`subtrees
      ensures r == FindSubtree(site, old(subtrees), id)
      ensures subtrees == Remembered(site, old(subtrees), id)
    {
      var answer := if id in subtrees then Found(subtrees[id]) else Nothing;
      if answer.Nothing? && site.resolver.Some? {
        answer := (site.resolver.value)(id);
        if answer.Found? {
          subtrees := subtrees[id := answer.source];
        }
      }
      match answer {
        case Raises(reason) => return NotFound(reason);
        case Nothing => return NotFound("it doesn't exist on this robot");
        case Found(source) =>
          assert subtrees == old(subtrees)[id := source];
          match source {
            case BlankText => return NotFound("it doesn't exist on this robot");
            case BadText(reason) => return NotFound(reason);
            case Text(main, others) =>
              AddOthers(others);
              return Root(main);
            case Tree(root) => return Root(root);
          }
      }
    }

    /** `setdefault` for every other tree of the same document. */
    method AddOthers(others: map<string, Element>)
      modifies this`subtrees
      ensures subtrees == (map k | k in others :: Tree(others[k])) + old(subtrees)
    {
      var todo := others.Keys;
      while todo != {}
        invariant todo <= others.Keys
        invariant subtrees == (map k | k in others && k !in todo :: Tree(others[k])) + old(subtrees)
        decreases todo
      {
        var k :| k in todo;
        if k !in subtrees {
          subtrees := subtrees[k := Tree(others[k])];
        }
        todo := todo - {k};
      }
    }

    /** The checks on a SubTree element that both walks make, in their order. */
    method CheckSubtree(strict: bool, e: Element) returns (cause: Option<TC.Cause>, root: Option<Element>)
      modifies this`subtrees
      ensures cause == TC.SubtreeCause(site, strict, e, stack, old(subtrees))
      ensures subtrees == TC.AfterLookup(site, strict, e, stack, old(subtrees))
      ensures cause.None? ==>
                |stack| < MAX_SUBTREE_DEPTH && FindSubtree(site, old(subtrees), SubtreeId(e)).Root?
                && root == Some(FindSubtree(site, old(subtrees), SubtreeId(e)).element)
    {
      var id := SubtreeId(e);
      root := None;
      if id == "" { return Some(TC.NoId), None; }
      if strict && e.children != [] { return Some(TC.HasChildren), None; }
      if id in stack { return Some(TC.Loop), None; }
      if |stack| >= MAX_SUBTREE_DEPTH { return Some(TC.NestedTooDeep), None; }
      var found := Find(id);
      match found {
        case NotFound(reason) => return Some(TC.Missing(reason)), None;
        case Root(element) => return None, Some(element);
      }
    }
  }

  // -------------------------------------------------------------------- checking

  class Validator {
    const context: Context
    var problems: seq<TC.Problem>
    var nodeCount: nat
    var sizeLimitHit: bool

    constructor (context: Context)
      ensures this.context == context && problems == [] && nodeCount == 0 && !sizeLimitHit
    {
      this.context := context;
      problems, nodeCount, sizeLimitHit := [], 0, false;
    }

    ghost function State(): TC.Check
      reads this, context
    {
      TC.Check(problems, nodeCount, sizeLimitHit, context.subtrees)
    }

    method Add(cause: TC.Cause, path: string)
      modifies this`problems
      ensures State() == TC.Report(old(State()), cause, path)
    {
      problems := problems + [TC.Error(cause, path)];
    }

    method AddLimit(cause: TC.Cause, path: string)
      modifies this`problems, this`sizeLimitHit
      ensures State() == TC.ReportLimit(old(State()), cause, path)
    {
      if !sizeLimitHit {
        sizeLimitHit := true;
        problems := problems + [TC.Error(cause, path)];
      }
    }

    method WarnConditions(e: Element, path: string)
      modifies this`problems
      ensures problems == old(problems) + TC.ConditionWarnings(context.site, e, path, 0)
    {
      hide TC.ConditionWarnings, Attr;
      var i := 0;
      while i < |CONDITIONS|
        invariant 0 <= i <= |CONDITIONS|
        invariant problems + TC.ConditionWarnings(context.site, e, path, i)
               == old(problems) + TC.ConditionWarnings(context.site, e, path, 0)
      {
        var text := Attr(e, CONDITIONS[i]);
        OneMoreCondition(problems, e, path, i);
        if text != "" && !context.site.parses(text) {
          problems := problems + [TC.Warning(CONDITIONS[i], path)];
        }
        i := i + 1;
      }
      NoMoreConditions(e, path);
    }

    lemma OneMoreCondition(ps: seq<TC.Problem>, e: Element, path: string, i: nat)
      requires i < |CONDITIONS|
      ensures var text := Attr(e, CONDITIONS[i]);
              var more := if text != "" && !context.site.parses(text) then [TC.Warning(CONDITIONS[i], path)] else [];
              ps + TC.ConditionWarnings(context.site, e, path, i)
              == ps + more + TC.ConditionWarnings(context.site, e, path, i + 1)
    {
    }

    lemma NoMoreConditions(e: Element, path: string)
      ensures TC.ConditionWarnings(context.site, e, path, |CONDITIONS|) == []
    {
    }

    method CheckNode(e: Element, path: string)
      modifies this`problems
      ensures problems == old(problems) + TC.NodeProblems(context.site, e, path)
    {
      if !Registered(context.site, e.tag) {
        Add(TC.Unknown, path);
        return;
      }
      var open := Limits(e.tag).Some? && Limits(e.tag).value.1.None?;
      if ArityProblem(e.tag, |e.children|) {
        Add(TC.Arity, path);
      } else if open && |e.children| == 0 {
        problems := problems + [TC.Warning("no children", path)];
      }
      if e.tag == "Script" && Strip(Attr(e, "code")) != "" && context.site.badScript(Attr(e, "code")) {
        problems := problems + [TC.Warning("script", path)];
      }
    }

    /** `visit` */
    method Visit(e: Element, above: string, depth: nat)
      modifies this, context
      ensures context.stack == old(context.stack)
      ensures State() == TC.Visit(context.site, false, e, above, depth, old(context.stack), old(State()))
      decreases MAX_SUBTREE_DEPTH - |context.stack|, e, 1
    {
      hide TC.ConditionWarnings, TC.NodeProblems, TC.SubtreeCause, TC.AfterLookup, FindSubtree, Remembered;
      var path := Extend(above, e);
      nodeCount := nodeCount + 1;
      if nodeCount > MAX_TREE_NODES {
        AddLimit(TC.TooManyNodes, path);
        return;
      }
      if depth > MAX_TREE_DEPTH {
        AddLimit(TC.TooDeep, path);
        return;
      }
      WarnConditions(e, path);
      if e.tag == "SubTree" {
        VisitSubtree(e, path, depth);
        return;
      }
      CheckNode(e, path);
      VisitChildren(e.children, path, depth + 1);
    }

    /** The SubTree branch of `visit`. */
    method VisitSubtree(e: Element, path: string, depth: nat)
      modifies this, context
      ensures context.stack == old(context.stack)
      ensures var c := old(State());
              var c3 := c.(subtrees := TC.AfterLookup(context.site, false, e, old(context.stack), c.subtrees));
              State() == match TC.SubtreeCause(context.site, false, e, old(context.stack), c.subtrees)
                         case Some(cause) => TC.Report(c3, cause, path)
                         case None =>
                           TC.Visit(context.site, false, FindSubtree(context.site, c.subtrees, SubtreeId(e)).element,
                                    path, depth + 1, old(context.stack) + [SubtreeId(e)], c3)
      decreases MAX_SUBTREE_DEPTH - |context.stack|, e, 0
    {
      var cause, root := context.CheckSubtree(false, e);
      if cause.Some? {
        Add(cause.value, path);
        return;
      }
      context.stack := context.stack + [SubtreeId(e)];
      Visit(root.value, path, depth + 1);
      context.stack := context.stack[..|context.stack| - 1];
    }

    method VisitChildren(es: seq<Element>, path: string, depth: nat)
      modifies this, context
      ensures context.stack == old(context.stack)
      ensures State() == TC.VisitAll(context.site, false, es, path, depth, old(context.stack), old(State()))
      decreases MAX_SUBTREE_DEPTH - |context.stack|, es, 0
    {
      var i := 0;
      while i < |es|
        invariant 0 <= i <= |es| && context.stack == old(context.stack)
        invariant TC.VisitAll(context.site, false, es[i..], path, depth, context.stack, State())
               == TC.VisitAll(context.site, false, es, path, depth, old(context.stack), old(State()))
      {
        assert es[i..][0] == es[i] && es[i..][1..] == es[i + 1..];
        Visit(es[i], path, depth);
        i := i + 1;
      }
      assert es[i..] == [];
    }
  }

  // -------------------------------------------------------------------- building

  datatype Outcome<T> = Made(made: T) | GaveUp(cause: TC.Cause, path: string)

  /** The objects ns are new trees of their own, and ts is what they are. */
  ghost predicate Modelled(ns: seq<BO.Behaviour>, ts: seq<BT.Tree>)
    reads set n, x | n in ns && x in n.repr :: x
  {
    && |ns| == |ts|
    && (forall i | 0 <= i < |ns| :: ns[i].Valid() && ns[i].Model() == ts[i])
    && forall i, j | 0 <= i < j < |ns| :: ns[i].repr !! ns[j].repr
  }

  class Builder {
    const context: Context
    var next: nat

    constructor (context: Context)
      ensures this.context == context && next == 0
    {
      this.context, next := context, 0;
    }

    ghost function Yard(): TC.Yard
      reads this, context
    {
      TC.Yard(context.subtrees, next)
    }

    method NewNode(kind: BT.Kind, children: seq<BO.Behaviour>, ghost ts: seq<BT.Tree>) returns (n: BO.Behaviour)
      requires Modelled(children, ts) && BT.ArityOk(kind, |children|)
      modifies this`next
      ensures n.Valid() && fresh(n.repr - set c, x | c in children && x in c.repr :: x)
      ensures n.Model() == TC.NewNode(old(next), kind, ts) && next == old(next) + 1
    {
      hide BT.Fits, BT.Arity;
      n := new BO.Behaviour(next, kind, children);
      next := next + 1;
      forall i | 0 <= i < |children|
        ensures n.Model().children[i] == ts[i]
      {
        assert unchanged(children[i].repr);
        assert n.Model().children[i] == children[i].Model();
      }
      assert n.Model().children == ts;
    }

    /** `_wrap_conditional` */
    method Wrap(e: Element, node: BO.Behaviour, ghost t: BT.Tree) returns (n: BO.Behaviour)
      requires node.Valid() && node.Model() == t
      modifies this`next
      ensures n.Valid() && fresh(n.repr - node.repr)
      ensures TC.Built(n.Model(), Yard()) == TC.Wrap(e, t, old(Yard()))
    {
      hide BT.Fits, BT.Arity;
      var conditions := TC.ConditionsOf(e);
      if conditions == {} {
        return node;
      }
      OneChildFits(conditions);
      n := NewNode(BT.Conditional(conditions), [node], [t]);
    }

    lemma OneChildFits(conditions: set<BT.Condition>)
      ensures BT.ArityOk(BT.Conditional(conditions), 1) && BT.ArityOk(BT.SubTree, 1)
    {
    }

    /** `build_node`: the objects it makes are exactly the tree that TreeChecking.BuildNode describes. */
    method BuildNode(e: Element, above: string) returns (r: Outcome<BO.Behaviour>)
      modifies this, context
      ensures context.stack == old(context.stack)
      ensures match TC.BuildNode(context.site, e, above, old(context.stack), old(Yard()))
              case Failed(cause, path) => r == GaveUp(cause, path)
              case Built(t, y) =>
                r.Made? && fresh(r.made.repr) && r.made.Valid() && r.made.Model() == t && Yard() == y
      decreases MAX_SUBTREE_DEPTH - |context.stack|, e, 1
    {
      hide BT.Fits, BT.Arity, FixedKind, BuiltIn, ArityProblem, KindOf, TC.SubtreeCause, FindSubtree, Remembered, TC.Wrap;
      var path := Extend(above, e);
      if e.tag == "SubTree" {
        r := BuildSubtree(e, path);
        return;
      }
      if !Registered(context.site, e.tag) {
        return GaveUp(TC.Unknown, path);
      }
      if ArityProblem(e.tag, |e.children|) {
        return GaveUp(TC.Arity, path);
      }
      ghost var b := TC.BuildAll(context.site, e.children, path, context.stack, Yard());
      var children := BuildChildren(e.children, path);
      if children.GaveUp? {
        return GaveUp(children.cause, children.path);
      }
      var kind := KindOf(context.site, e);
      if kind.None? {
        return GaveUp(TC.BuilderFailed, path);
      }
      ArityCheckIsEnough(context.site, e);
      var node := NewNode(kind.value, children.made, b.value);
      var wrapped := Wrap(e, node, node.Model());
      r := Made(wrapped);
    }

    /** `_build_subtree`, and the wrapper around its node. */
    method BuildSubtree(e: Element, path: string) returns (r: Outcome<BO.Behaviour>)
      modifies this, context
      ensures context.stack == old(context.stack)
      ensures match TC.BuildSubtree(context.site, e, path, old(context.stack), old(Yard()))
              case Failed(cause, at) => r == GaveUp(cause, at)
              case Built(t, y) =>
                r.Made? && fresh(r.made.repr) && r.made.Valid() && r.made.Model() == t && Yard() == y
      decreases MAX_SUBTREE_DEPTH - |context.stack|, e, 0
    {
      hide BT.Fits, BT.Arity, FindSubtree, Remembered, TC.Wrap, TC.BuildNode, TC.SubtreeCause, TC.NewNode, SubtreeId;
      var cause, root := context.CheckSubtree(true, e);
      if cause.Some? {
        return GaveUp(cause.value, path);
      }
      context.stack := context.stack + [SubtreeId(e)];
      var child := BuildNode(root.value, path);
      context.stack := context.stack[..|context.stack| - 1];
      if child.GaveUp? {
        return GaveUp(child.cause, child.path);
      }
      var made := NewSubtree(e, child.made, child.made.Model());
      r := Made(made);
    }

    /** The node of a SubTree element over the tree it stands for. */
    method NewSubtree(e: Element, inner: BO.Behaviour, ghost t: BT.Tree) returns (n: BO.Behaviour)
      requires inner.Valid() && inner.Model() == t
      modifies this`next
      ensures n.Valid() && fresh(n.repr - inner.repr)
      ensures TC.Built(n.Model(), Yard())
           == TC.Wrap(e, TC.NewNode(old(next), BT.SubTree, [t]), old(Yard()).(next := old(next) + 1))
    {
      hide BT.Fits, BT.Arity, TC.Wrap, TC.NewNode;
      OneChildFits({});
      var node := NewNode(BT.SubTree, [inner], [t]);
      n := Wrap(e, node, node.Model());
    }

    lemma StartsBefore(b: TC.Build<seq<BT.Tree>>)
      ensures TC.Before([], b) == b
    {
      if b.Built? {
        assert [] + b.value == b.value;
      }
    }

    method BuildChildren(es: seq<Element>, path: string) returns (r: Outcome<seq<BO.Behaviour>>)
      modifies this, context
      ensures context.stack == old(context.stack)
      ensures match TC.BuildAll(context.site, es, path, old(context.stack), old(Yard()))
              case Failed(cause, at) => r == GaveUp(cause, at)
              case Built(ts, y) =>
                r.Made? && (forall n | n in r.made :: fresh(n.repr)) && Modelled(r.made, ts) && Yard() == y
      decreases MAX_SUBTREE_DEPTH - |context.stack|, es, 0
    {
      hide TC.BuildNode, BT.Fits, BT.Arity;
      var ns: seq<BO.Behaviour> := [];
      ghost var ts: seq<BT.Tree> := [];
      var i := 0;
      assert es[0..] == es;
      StartsBefore(TC.BuildAll(context.site, es, path, context.stack, Yard()));
      while i < |es|
        invariant 0 <= i <= |es| && context.stack == old(context.stack)
        invariant (forall n | n in ns :: fresh(n.repr)) && Modelled(ns, ts)
        invariant TC.BuildAll(context.site, es, path, context.stack, old(Yard()))
               == TC.Before(ts, TC.BuildAll(context.site, es[i..], path, context.stack, Yard()))
      {
        assert es[i..][0] == es[i] && es[i..][1..] == es[i + 1..];
        ghost var yard := Yard();
        var one := BuildNode(es[i], path);
        if one.GaveUp? {
          return GaveUp(one.cause, one.path);
        }
        TC.BeforeMore(context.site, es[i..], path, context.stack, yard, ts);
        ts := ts + [one.made.Model()];
        ns := ns + [one.made];
        i := i + 1;
      }
      assert es[i..] == [] && ts + [] == ts;
      r := Made(ns);
    }
  }
}
