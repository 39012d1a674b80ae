/** The checker and the builder agree, and what the builder makes of a checked document is a tree that can run. */
module TreeAgreement {
  import opened Wrappers
  import opened TreeDocuments
  import opened TreeChecking
  import BT = BehaviourTrees
  import TI = TreeInvariant

  function FirstError(ps: seq<Problem>): (r: Option<Problem>)
    ensures r.Some? ==> r.value.Error?
  {
    if ps == [] then None else if ps[0].Error? then Some(ps[0]) else FirstError(ps[1..])
  }

  lemma {:induction false} FirstErrorAppend(ps: seq<Problem>, qs: seq<Problem>)
    ensures FirstError(ps + qs) == if FirstError(ps).Some? then FirstError(ps) else FirstError(qs)
  {
    if ps == [] {
      assert ps + qs == qs;
    } else {
      assert (ps + qs)[1..] == ps[1..] + qs;
      FirstErrorAppend(ps[1..], qs);
    }
  }

  lemma FirstErrorStays(ps: seq<Problem>, qs: seq<Problem>)
    requires ps <= qs && FirstError(ps).Some?
    ensures FirstError(qs) == FirstError(ps)
  {
    FirstErrorAppend(ps, qs[|ps|..]);
    assert qs == ps + qs[|ps|..];
  }

  lemma OneError(p: Problem)
    requires p.Error?
    ensures FirstError([p]) == Some(p)
  {
  }

  lemma {:induction false} WarningsAreNoErrors(site: Site, e: Element, path: string, i: nat)
    requires i <= |CONDITIONS|
    ensures FirstError(ConditionWarnings(site, e, path, i)).None?
    decreases |CONDITIONS| - i
  {
    if i >= |CONDITIONS| {
    } else {
      WarningsAreNoErrors(site, e, path, i + 1);
      var text := Attr(e, CONDITIONS[i]);
      FirstErrorAppend(if text != "" && !site.parses(text) then [Warning(CONDITIONS[i], path)] else [],
                       ConditionWarnings(site, e, path, i + 1));
    }
  }

  lemma NodeErrors(site: Site, e: Element, path: string)
    ensures FirstError(NodeProblems(site, e, path))
         == if !Registered(site, e.tag) then Some(Error(Unknown, path))
            else if ArityProblem(e.tag, |e.children|) then Some(Error(Arity, path)) else None
  {
    if Registered(site, e.tag) {
      var n := |e.children|;
      var open := Limits(e.tag).Some? && Limits(e.tag).value.1.None?;
      var first := if ArityProblem(e.tag, n) then [Error(Arity, path)]
                   else if open && n == 0 then [Warning("no children", path)] else [];
      var second := if e.tag == "Script" && Strip(Attr(e, "code")) != "" && site.badScript(Attr(e, "code"))
                    then [Warning("script", path)] else [];
      FirstErrorAppend(first, second);
      assert NodeProblems(site, e, path) == first + second;
    }
  }

  // --------------------------------------------------------- the strict walk and the builder

  /** The builder has no limits of its own. */
  predicate IsLimit(cause: Cause) {
    cause.TooManyNodes? || cause.TooDeep?
  }

  /** The build below an element, compared with the strict walk of it: they end at the same error, if any. */
  ghost predicate Matches<T>(b: Build<T>, r: Check) {
    match FirstError(r.problems)
    case None => b.Built? && b.yard.subtrees == r.subtrees
    case Some(p) => IsLimit(p.cause) || b == Failed(p.cause, p.path)
  }

  /** A violated limit is always reported. */
  ghost predicate LimitReported(c: Check) {
    c.limitHit || c.count > MAX_TREE_NODES ==> FirstError(c.problems).Some?
  }

  lemma {:induction false} LimitIsReported(site: Site, strict: bool, e: Element, above: string, depth: nat,
                                           stack: seq<string>, c: Check)
    requires LimitReported(c)
    ensures LimitReported(Visit(site, strict, e, above, depth, stack, c))
    decreases MAX_SUBTREE_DEPTH - |stack|, e, 1
  {
    hide FirstError, ConditionWarnings, NodeProblems, Extend, FindSubtree, AfterLookup, Refused;
    var path := Extend(above, e);
    var c1 := c.(count := c.count + 1);
    if c1.count > MAX_TREE_NODES {
      ErrorEndsSearch(c1.problems, TooManyNodes, path);
    } else if depth > MAX_TREE_DEPTH {
      ErrorEndsSearch(c1.problems, TooDeep, path);
    } else {
      FirstErrorAppend(c1.problems, ConditionWarnings(site, e, path, 0));
      var c2 := c1.(problems := c1.problems + ConditionWarnings(site, e, path, 0));
      if e.tag == "SubTree" {
        var c3 := c2.(subtrees := AfterLookup(site, strict, e, stack, c2.subtrees));
        match SubtreeCause(site, strict, e, stack, c2.subtrees)
        case Some(cause) => ErrorEndsSearch(c3.problems, cause, path);
        case None =>
          LimitIsReported(site, strict, FindSubtree(site, c2.subtrees, SubtreeId(e)).element, path, depth + 1,
                          stack + [SubtreeId(e)], c3);
      } else {
        FirstErrorAppend(c2.problems, NodeProblems(site, e, path));
        var c3 := c2.(problems := c2.problems + NodeProblems(site, e, path));
        LimitsAreReported(site, strict, e.children, path, depth + 1, stack, c3);
        ErrorEndsSearch(VisitAll(site, strict, e.children, path, depth + 1, stack, c3).problems, BuilderFailed, path);
      }
    }
  }

  lemma {:induction false} LimitsAreReported(site: Site, strict: bool, es: seq<Element>, path: string, depth: nat,
                                             stack: seq<string>, c: Check)
    requires LimitReported(c)
    ensures LimitReported(VisitAll(site, strict, es, path, depth, stack, c))
    decreases MAX_SUBTREE_DEPTH - |stack|, es, 0
  {
    hide Visit, LimitReported;
    if es == [] {
    } else {
      LimitIsReported(site, strict, es[0], path, depth, stack, c);
      LimitsAreReported(site, strict, es[1..], path, depth, stack, Visit(site, strict, es[0], path, depth, stack, c));
    }
  }

  lemma ErrorEndsSearch(ps: seq<Problem>, cause: Cause, path: string)
    ensures FirstError(ps + [Error(cause, path)]).Some?
  {
    ErrorIsFound(ps + [Error(cause, path)], Error(cause, path));
  }

  /** Step by step, the strict walk finds its first error exactly where the build gives up, and for the same cause. */
  lemma {:induction false} NodeMatches(site: Site, e: Element, above: string, depth: nat, stack: seq<string>, c: Check,
                                       yard: Yard)
    requires yard.subtrees == c.subtrees && FirstError(c.problems).None? && LimitReported(c)
    ensures Matches(BuildNode(site, e, above, stack, yard), Visit(site, true, e, above, depth, stack, c))
    decreases MAX_SUBTREE_DEPTH - |stack|, e, 1
  {
    hide FixedKind, BuiltIn, Limits, ArityProblem, KindOf, NodeProblems, ConditionWarnings, Extend, Strip, Attr,
         SourceOf, FirstError;
    var path := Extend(above, e);
    var warnings := ConditionWarnings(site, e, path, 0);
    WarningsAreNoErrors(site, e, path, 0);
    FirstErrorAppend(c.problems, warnings);
    var c2 := c.(count := c.count + 1, problems := c.problems + warnings);
    if c2.count > MAX_TREE_NODES || depth > MAX_TREE_DEPTH {
      var cause := if c2.count > MAX_TREE_NODES then TooManyNodes else TooDeep;
      OneError(Error(cause, path));
      FirstErrorAppend(c.problems, [Error(cause, path)]);
    } else if e.tag == "SubTree" {
      var c3 := c2.(subtrees := AfterLookup(site, true, e, stack, c2.subtrees));
      match SubtreeCause(site, true, e, stack, c2.subtrees)
      case Some(cause) =>
        OneError(Error(cause, path));
        FirstErrorAppend(c2.problems, [Error(cause, path)]);
      case None =>
        var root := FindSubtree(site, c2.subtrees, SubtreeId(e)).element;
        var learned := yard.(subtrees := Remembered(site, yard.subtrees, SubtreeId(e)));
        NodeMatches(site, root, path, depth + 1, stack + [SubtreeId(e)], c3, learned);
    } else {
      var own := NodeProblems(site, e, path);
      NodeErrors(site, e, path);
      FirstErrorAppend(c2.problems, own);
      var c3 := c2.(problems := c2.problems + own);
      var c4 := VisitAll(site, true, e.children, path, depth + 1, stack, c3);
      OneError(Error(BuilderFailed, path));
      FirstErrorAppend(c4.problems, [Error(BuilderFailed, path)]);
      if FirstError(own).Some? {
        FirstErrorStays(c3.problems, c4.problems);
      } else {
        AllMatch(site, e.children, path, depth + 1, stack, c3, yard);
      }
    }
  }

  lemma {:induction false} AllMatch(site: Site, es: seq<Element>, path: string, depth: nat, stack: seq<string>, c: Check,
                                    yard: Yard)
    requires yard.subtrees == c.subtrees && FirstError(c.problems).None? && LimitReported(c)
    ensures Matches(BuildAll(site, es, path, stack, yard), VisitAll(site, true, es, path, depth, stack, c))
    decreases MAX_SUBTREE_DEPTH - |stack|, es, 0
  {
    hide Visit, BuildNode, FirstError;
    if es == [] {
    } else {
      var c1 := Visit(site, true, es[0], path, depth, stack, c);
      var r := VisitAll(site, true, es[1..], path, depth, stack, c1);
      NodeMatches(site, es[0], path, depth, stack, c, yard);
      if FirstError(c1.problems).Some? {
        FirstErrorStays(c1.problems, r.problems);
      } else {
        LimitIsReported(site, true, es[0], path, depth, stack, c);
        AllMatch(site, es[1..], path, depth, stack, c1, BuildNode(site, es[0], path, stack, yard).yard);
      }
    }
  }

  // ------------------------------------------------------ the checks only the builder makes

  predicate BuilderOnly(cause: Cause) {
    cause.HasChildren? || cause.BuilderFailed?
  }

  /** The walk met no SubTree with children, and no element whose builder raises. */
  ghost predicate NothingElse(ps: seq<Problem>) {
    forall p | p in ps :: !(p.Error? && BuilderOnly(p.cause))
  }

  /** The strict walk and the repository's own agree up to the first thing that only the builder notices. */
  ghost predicate Agree(strict: Check, lenient: Check) {
    match FirstError(strict.problems)
    case None => strict == lenient
    case Some(p) => BuilderOnly(p.cause) || FirstError(lenient.problems) == Some(p)
  }

  lemma {:induction false} WalksAgree(site: Site, e: Element, above: string, depth: nat, stack: seq<string>, c: Check)
    requires FirstError(c.problems).None?
    ensures Agree(Visit(site, true, e, above, depth, stack, c), Visit(site, false, e, above, depth, stack, c))
    decreases MAX_SUBTREE_DEPTH - |stack|, e, 1
  {
    hide FixedKind, BuiltIn, Limits, ArityProblem, KindOf, NodeProblems, ConditionWarnings, Extend, Strip, Attr,
         SourceOf, FirstError, Refused;
    var path := Extend(above, e);
    var warnings := ConditionWarnings(site, e, path, 0);
    WarningsAreNoErrors(site, e, path, 0);
    FirstErrorAppend(c.problems, warnings);
    var c2 := c.(count := c.count + 1, problems := c.problems + warnings);
    if c2.count > MAX_TREE_NODES || depth > MAX_TREE_DEPTH {
    } else if e.tag == "SubTree" {
      var c3 := c2.(subtrees := AfterLookup(site, true, e, stack, c2.subtrees));
      match SubtreeCause(site, true, e, stack, c2.subtrees)
      case Some(cause) =>
        OneError(Error(cause, path));
        FirstErrorAppend(c2.problems, [Error(cause, path)]);
      case None =>
        WalksAgree(site, FindSubtree(site, c2.subtrees, SubtreeId(e)).element, path, depth + 1,
                   stack + [SubtreeId(e)], c3);
    } else {
      var own := NodeProblems(site, e, path);
      FirstErrorAppend(c2.problems, own);
      var c3 := c2.(problems := c2.problems + own);
      NodeErrors(site, e, path);
      ChildrenAgree(site, e, path, depth, stack, c3);
    }
  }

  /** The children of an element, and what its builder adds. */
  lemma {:induction false} ChildrenAgree(site: Site, e: Element, path: string, depth: nat, stack: seq<string>, c3: Check)
    requires FirstError(c3.problems).Some? ==> !BuilderOnly(FirstError(c3.problems).value.cause)
    ensures var s4 := VisitAll(site, true, e.children, path, depth + 1, stack, c3);
            Agree(if Refused(site, e) then Report(s4, BuilderFailed, path) else s4,
                  VisitAll(site, false, e.children, path, depth + 1, stack, c3))
    decreases MAX_SUBTREE_DEPTH - |stack|, e, 0
  {
    hide FirstError, Refused, Visit, VisitAll;
    var s4 := VisitAll(site, true, e.children, path, depth + 1, stack, c3);
    var l4 := VisitAll(site, false, e.children, path, depth + 1, stack, c3);
    OneError(Error(BuilderFailed, path));
    FirstErrorAppend(s4.problems, [Error(BuilderFailed, path)]);
    if FirstError(c3.problems).Some? {
      FirstErrorStays(c3.problems, s4.problems);
      FirstErrorStays(c3.problems, l4.problems);
    } else {
      AllWalksAgree(site, e.children, path, depth + 1, stack, c3);
    }
  }

  lemma {:induction false} AllWalksAgree(site: Site, es: seq<Element>, path: string, depth: nat, stack: seq<string>,
                                         c: Check)
    requires FirstError(c.problems).None?
    ensures Agree(VisitAll(site, true, es, path, depth, stack, c), VisitAll(site, false, es, path, depth, stack, c))
    decreases MAX_SUBTREE_DEPTH - |stack|, es, 0
  {
    hide FirstError, Visit;
    if es == [] {
    } else {
      var s1 := Visit(site, true, es[0], path, depth, stack, c);
      var l1 := Visit(site, false, es[0], path, depth, stack, c);
      WalksAgree(site, es[0], path, depth, stack, c);
      if FirstError(s1.problems).Some? {
        FirstErrorStays(s1.problems, VisitAll(site, true, es[1..], path, depth, stack, s1).problems);
        if FirstError(l1.problems).Some? {
          FirstErrorStays(l1.problems, VisitAll(site, false, es[1..], path, depth, stack, l1).problems);
        }
      } else {
        AllWalksAgree(site, es[1..], path, depth, stack, s1);
      }
    }
  }

  // ------------------------------------------------------------- the main theorems

  function Strict(site: Site, root: Element, subtrees: map<string, Source>): Check {
    Visit(site, true, root, "", 0, [], Check([], 0, false, subtrees))
  }

  /** The first error listed, if any, is not about the size of the document. */
  ghost predicate WithinLimits(ps: seq<Problem>) {
    FirstError(ps).Some? ==> !IsLimit(FirstError(ps).value.cause)
  }

  lemma WholeWalks(site: Site, root: Element, subtrees: map<string, Source>)
    ensures Agree(Strict(site, root, subtrees), Validate(site, root, subtrees))
    ensures Matches(BuildTree(site, root, subtrees), Strict(site, root, subtrees))
    ensures LimitReported(Validate(site, root, subtrees))
  {
    hide FirstError, Visit, BuildNode;
    var c := Check([], 0, false, subtrees);
    assert FirstError([]).None? by { NoError(); }
    WalksAgree(site, root, "", 0, [], c);
    NodeMatches(site, root, "", 0, [], c, Yard(subtrees, 0));
    LimitIsReported(site, false, root, "", 0, [], c);
  }

  lemma NoError()
    ensures FirstError([]).None?
  {
  }

  /**
   For every document, registry and resolver: if the build succeeds, validation lists no error (unless the document is too
   large or too deep for validation); if it gives up, then at the first error listed, with its cause and path, or at one
   of the two things only the builder notices.
   */
  lemma CheckerAgreesWithBuilder(site: Site, root: Element, subtrees: map<string, Source>)
    requires WithinLimits(Validate(site, root, subtrees).problems)
    ensures match BuildTree(site, root, subtrees)
            case Built(_, _) => FirstError(Validate(site, root, subtrees).problems).None?
            case Failed(cause, at) =>
              BuilderOnly(cause) || FirstError(Validate(site, root, subtrees).problems) == Some(Error(cause, at))
  {
    hide FirstError, Validate, Strict, BuildTree;
    WholeWalks(site, root, subtrees);
  }

  /**
   For every document: the build fails exactly when validation lists an error, or the walk meets a SubTree that has
   children or an element whose builder raises, neither of which validation looks at.
   */
  lemma BuildFailsExactly(site: Site, root: Element, subtrees: map<string, Source>)
    requires WithinLimits(Validate(site, root, subtrees).problems)
    ensures BuildTree(site, root, subtrees).Failed? <==>
            FirstError(Validate(site, root, subtrees).problems).Some?
            || !NothingElse(Strict(site, root, subtrees).problems)
  {
    hide FirstError, Validate, Strict, BuildTree;
    WholeWalks(site, root, subtrees);
    var strict := Strict(site, root, subtrees);
    if FirstError(strict.problems).Some? {
      FirstErrorIsThere(strict.problems);
    }
    if !NothingElse(strict.problems) {
      var p :| p in strict.problems && p.Error? && BuilderOnly(p.cause);
      ErrorIsFound(strict.problems, p);
    }
  }

  lemma {:induction false} FirstErrorIsThere(ps: seq<Problem>)
    requires FirstError(ps).Some?
    ensures FirstError(ps).value in ps
  {
    if ps[0].Error? {
    } else {
      FirstErrorIsThere(ps[1..]);
    }
  }

  lemma {:induction false} ErrorIsFound(ps: seq<Problem>, p: Problem)
    requires p in ps && p.Error?
    ensures FirstError(ps).Some?
  {
    if !ps[0].Error? {
      ErrorIsFound(ps[1..], p);
    }
  }

  const LEAF := Element("AlwaysSuccess", map[], [])
  const CHILDFUL := Element("SubTree", map["ID" := "a"], [LEAF])
  const KNOWN := map["a" := Tree(LEAF)]

  /** The gap: a SubTree with a child validates, and does not build. */
  lemma ChildfulSubtreeSlipsThrough(site: Site)
    ensures Validate(site, CHILDFUL, KNOWN).problems == []
    ensures BuildTree(site, CHILDFUL, KNOWN) == Failed(HasChildren, "SubTree")
  {
    hide FixedKind, NodeProblems, ConditionWarnings;
    ChildfulLooksFine(site);
    NoConditions(site, CHILDFUL, "SubTree", 0);
    LeafIsFine(site, "SubTree", 1, ["a"], Check([], 1, false, KNOWN));
    assert [] + ["a"] == ["a"];
    assert BuildSubtree(site, CHILDFUL, "SubTree", [], Yard(KNOWN, 0)) == Failed(HasChildren, "SubTree");
  }

  const REFUSED := Element("Parallel", map["success_count" := "abc"], [LEAF])

  /** The other gap: a Parallel whose count is no number validates, and does not build. */
  lemma RefusedCountSlipsThrough(site: Site)
    requires site.count(REFUSED.attrs, "success_count").None?
    ensures Validate(site, REFUSED, map[]).problems == []
    ensures BuildTree(site, REFUSED, map[]) == Failed(BuilderFailed, "Parallel")
  {
    RefusedVisit(site);
    RefusedBuild(site);
  }

  lemma RefusedVisit(site: Site)
    ensures Validate(site, REFUSED, map[]).problems == []
  {
    hide ConditionWarnings, NodeProblems, VisitAll;
    RefusedHasItsTag(site);
    NoConditions(site, REFUSED, "Parallel", 0);
    AloneIsFine(site, "Parallel", 1, [], Check([], 1, false, map[]));
    var none: seq<Problem> := [];
    assert none + none + none == none;
  }

  lemma RefusedHasItsTag(site: Site)
    ensures NodeProblems(site, REFUSED, "Parallel") == []
  {
  }

  lemma RefusedBuild(site: Site)
    requires site.count(REFUSED.attrs, "success_count").None?
    ensures BuildTree(site, REFUSED, map[]) == Failed(BuilderFailed, "Parallel")
  {
    hide BuildAll;
    LeafBuilds(site, "Parallel", [], Yard(map[], 0));
  }

  lemma LeafBuilds(site: Site, above: string, stack: seq<string>, yard: Yard)
    ensures BuildAll(site, [LEAF], above, stack, yard).Built?
  {
    assert BuildNode(site, LEAF, above, stack, yard).Built?;
    hide BuildNode;
    assert [LEAF][1..] == [];
  }

  lemma AloneIsFine(site: Site, above: string, depth: nat, stack: seq<string>, c: Check)
    requires depth <= MAX_TREE_DEPTH && c.count < MAX_TREE_NODES
    ensures VisitAll(site, false, [LEAF], above, depth, stack, c) == c.(count := c.count + 1)
  {
    hide Visit;
    LeafIsFine(site, above, depth, stack, c);
    assert [LEAF][1..] == [];
  }

  lemma ChildfulLooksFine(site: Site)
    ensures SubtreeId(CHILDFUL) == "a" && Extend("", CHILDFUL) == "SubTree"
    ensures SubtreeCause(site, false, CHILDFUL, [], KNOWN) == None
    ensures AfterLookup(site, false, CHILDFUL, [], KNOWN) == KNOWN
    ensures FindSubtree(site, KNOWN, "a") == Root(LEAF)
    ensures SubtreeCause(site, true, CHILDFUL, [], KNOWN) == Some(HasChildren)
  {
    assert !IsSpace('a');
    assert Strip("a") == "a";
  }

  lemma LeafIsFine(site: Site, above: string, depth: nat, stack: seq<string>, c: Check)
    requires depth <= MAX_TREE_DEPTH && c.count < MAX_TREE_NODES
    ensures Visit(site, false, LEAF, above, depth, stack, c) == c.(count := c.count + 1)
  {
    var path := Extend(above, LEAF);
    NoConditions(site, LEAF, path, 0);
    hide Extend, ConditionWarnings;
    assert NodeProblems(site, LEAF, path) == [];
    assert c.problems + [] + [] == c.problems;
  }

  lemma {:induction false} NoConditions(site: Site, e: Element, path: string, i: nat)
    requires i <= |CONDITIONS| && forall k | 0 <= k < |CONDITIONS| :: CONDITIONS[k] !in e.attrs
    ensures ConditionWarnings(site, e, path, i) == []
    decreases |CONDITIONS| - i
  {
    if i >= |CONDITIONS| {
    } else {
      NoConditions(site, e, path, i + 1);
    }
  }

  // ------------------------------------------------------------ what is built, and how much

  function Size(t: BT.Tree): nat
    decreases t, 0
  {
    1 + SizeAll(t.children)
  }

  function SizeAll(ts: seq<BT.Tree>): nat
    decreases ts, 1
  {
    if ts == [] then 0 else Size(ts[0]) + SizeAll(ts[1..])
  }

  /** The nodes that stand for elements: all but the condition wrappers. */
  function Elements(t: BT.Tree): nat
    decreases t, 0
  {
    (if t.kind.Conditional? then 0 else 1) + ElementsOf(t.children)
  }

  function ElementsOf(ts: seq<BT.Tree>): nat
    decreases ts, 1
  {
    if ts == [] then 0 else Elements(ts[0]) + ElementsOf(ts[1..])
  }

  /** At most n levels of elements. */
  ghost predicate Shallow(t: BT.Tree, n: int)
    decreases t
  {
    var below := if t.kind.Conditional? then n else n - 1;
    below >= 0 && forall i | 0 <= i < |t.children| :: Shallow(t.children[i], below)
  }

  /** Every condition wrapper has one child, an element of its own. */
  ghost predicate SingleWrapped(t: BT.Tree)
    decreases t
  {
    && (t.kind.Conditional? ==> |t.children| == 1 && !t.children[0].kind.Conditional?)
    && forall i | 0 <= i < |t.children| :: SingleWrapped(t.children[i])
  }

  /** Ids are given out children first, without gaps, from lo on. */
  ghost predicate NumberedFrom(t: BT.Tree, lo: nat)
    decreases t, 0
  {
    AllNumberedFrom(t.children, lo) && t.id == lo + SizeAll(t.children)
  }

  ghost predicate AllNumberedFrom(ts: seq<BT.Tree>, lo: nat)
    decreases ts, 1
  {
    ts != [] ==> NumberedFrom(ts[0], lo) && AllNumberedFrom(ts[1..], lo + Size(ts[0]))
  }

  /** A tree as the builder leaves it: able to run, not started, its nodes numbered from lo on. */
  ghost predicate Ready(t: BT.Tree, lo: nat) {
    BT.Fits(BT.Skeleton(t)) && TI.AsBuilt(t) && NumberedFrom(t, lo)
  }

  ghost predicate AllReady(ts: seq<BT.Tree>, lo: nat) {
    && (forall i | 0 <= i < |ts| :: BT.Fits(BT.Skeleton(ts[i])) && TI.AsBuilt(ts[i]))
    && AllNumberedFrom(ts, lo)
  }

  lemma NewNodeIsReady(kind: BT.Kind, children: seq<BT.Tree>, lo: nat)
    requires AllReady(children, lo) && BT.ArityOk(kind, |children|)
    ensures Ready(NewNode(lo + SizeAll(children), kind, children), lo)
    ensures Size(NewNode(lo + SizeAll(children), kind, children)) == 1 + SizeAll(children)
  {
    hide BT.Fits, BT.Skeleton, BT.ArityOk, TI.AsBuilt, NumberedFrom, AllNumberedFrom, SizeAll, Size;
    NewNodeFits(lo + SizeAll(children), kind, children);
    NewNodeIsAsBuilt(lo + SizeAll(children), kind, children);
    NewNodeIsNumbered(kind, children, lo);
  }

  lemma NewNodeIsNumbered(kind: BT.Kind, children: seq<BT.Tree>, lo: nat)
    requires AllNumberedFrom(children, lo)
    ensures NumberedFrom(NewNode(lo + SizeAll(children), kind, children), lo)
    ensures Size(NewNode(lo + SizeAll(children), kind, children)) == 1 + SizeAll(children)
  {
  }

  lemma NewNodeFits(id: nat, kind: BT.Kind, children: seq<BT.Tree>)
    requires BT.ArityOk(kind, |children|) && forall i | 0 <= i < |children| :: BT.Fits(BT.Skeleton(children[i]))
    ensures BT.Fits(BT.Skeleton(NewNode(id, kind, children)))
  {
    hide BT.ArityOk;
    var s := BT.Skeleton(NewNode(id, kind, children));
    assert |s.children| == |children| && s.kind == kind;
    forall i | 0 <= i < |s.children|
      ensures BT.Fits(s.children[i])
    {
      assert s.children[i] == BT.Skeleton(children[i]);
    }
  }

  lemma NewNodeIsAsBuilt(id: nat, kind: BT.Kind, children: seq<BT.Tree>)
    requires forall i | 0 <= i < |children| :: TI.AsBuilt(children[i])
    ensures TI.AsBuilt(NewNode(id, kind, children))
  {
  }

  lemma WrapIsReady(e: Element, node: BT.Tree, yard: Yard, lo: nat)
    requires Ready(node, lo) && yard.next == lo + Size(node)
    ensures var b := Wrap(e, node, yard);
            b.Built? && Ready(b.value, lo) && b.yard.next == lo + Size(b.value) && b.yard.subtrees == yard.subtrees
  {
    hide BT.Fits, TI.AsBuilt;
    assert [node][1..] == [];
    assert SizeAll([node]) == Size(node);
    assert AllNumberedFrom([node], lo);
    if ConditionsOf(e) != {} {
      AloneIsReady(node, lo);
      NewNodeIsReady(BT.Conditional(ConditionsOf(e)), [node], lo);
    }
  }

  lemma AloneIsReady(node: BT.Tree, lo: nat)
    requires Ready(node, lo)
    ensures AllReady([node], lo) && SizeAll([node]) == Size(node)
  {
    assert [node][1..] == [];
  }

  /** Every successful build is a tree whose nodes can run, all INVALID, with ids of their own. */
  lemma {:induction false} BuiltIsReady(site: Site, e: Element, above: string, stack: seq<string>, yard: Yard)
    ensures var b := BuildNode(site, e, above, stack, yard);
            b.Built? ==> Ready(b.value, yard.next) && b.yard.next == yard.next + Size(b.value)
    decreases MAX_SUBTREE_DEPTH - |stack|, e, 1
  {
    hide FixedKind, BuiltIn, Limits, ArityProblem, KindOf, Extend, Strip, Attr, SourceOf, Wrap;
    var path := Extend(above, e);
    var b := BuildNode(site, e, above, stack, yard);
    if b.Built? {
      if e.tag == "SubTree" {
        var root := FindSubtree(site, yard.subtrees, SubtreeId(e)).element;
        var learned := yard.(subtrees := Remembered(site, yard.subtrees, SubtreeId(e)));
        BuiltIsReady(site, root, path, stack + [SubtreeId(e)], learned);
        var inner := BuildNode(site, root, path, stack + [SubtreeId(e)], learned);
        AloneIsReady(inner.value, yard.next);
        NewNodeIsReady(BT.SubTree, [inner.value], yard.next);
        WrapIsReady(e, NewNode(inner.yard.next, BT.SubTree, [inner.value]), inner.yard.(next := inner.yard.next + 1),
                    yard.next);
      } else {
        AllBuiltAreReady(site, e.children, path, stack, yard);
        var inner := BuildAll(site, e.children, path, stack, yard);
        ArityCheckIsEnough(site, e);
        var kind := KindOf(site, e).value;
        NewNodeIsReady(kind, inner.value, yard.next);
        WrapIsReady(e, NewNode(inner.yard.next, kind, inner.value), inner.yard.(next := inner.yard.next + 1), yard.next);
      }
    }
  }

  lemma {:induction false} AllBuiltAreReady(site: Site, es: seq<Element>, path: string, stack: seq<string>, yard: Yard)
    ensures var b := BuildAll(site, es, path, stack, yard);
            b.Built? ==> AllReady(b.value, yard.next) && b.yard.next == yard.next + SizeAll(b.value)
    decreases MAX_SUBTREE_DEPTH - |stack|, es, 0
  {
    hide BT.Fits, TI.AsBuilt, NumberedFrom, AllNumberedFrom, BuildNode, Ready, AllReady;
    var b := BuildAll(site, es, path, stack, yard);
    if es == [] {
      NothingIsReady(yard.next);
    } else if b.Built? {
      BuiltIsReady(site, es[0], path, stack, yard);
      var first := BuildNode(site, es[0], path, stack, yard);
      AllBuiltAreReady(site, es[1..], path, stack, first.yard);
      var rest := BuildAll(site, es[1..], path, stack, first.yard);
      ConsIsReady(first.value, rest.value, yard.next);
    }
  }

  lemma NothingIsReady(lo: nat)
    ensures AllReady([], lo) && SizeAll([]) == 0
  {
  }

  lemma ConsIsReady(t: BT.Tree, ts: seq<BT.Tree>, lo: nat)
    requires Ready(t, lo) && AllReady(ts, lo + Size(t))
    ensures AllReady([t] + ts, lo) && SizeAll([t] + ts) == Size(t) + SizeAll(ts)
  {
    hide BT.Fits, TI.AsBuilt, NumberedFrom, Size;
    assert ([t] + ts)[1..] == ts;
  }

  // ------------------------------------------------------------------- how much is built

  /** Exactly one behaviour per element, each wrapped at most once, on so many levels. */
  ghost predicate Measured(t: BT.Tree, elements: int, levels: int) {
    Elements(t) == elements && Shallow(t, levels) && SingleWrapped(t)
  }

  ghost predicate AllMeasured(ts: seq<BT.Tree>, elements: int, levels: int) {
    ElementsOf(ts) == elements && forall i | 0 <= i < |ts| :: Shallow(ts[i], levels) && SingleWrapped(ts[i])
  }

  lemma KindIsNoWrapper(site: Site, e: Element)
    requires KindOf(site, e).Some?
    ensures !KindOf(site, e).value.Conditional?
  {
  }

  lemma NodeIsMeasured(e: Element, id: nat, kind: BT.Kind, children: seq<BT.Tree>, yard: Yard, elements: int, levels: int)
    requires !kind.Conditional? && AllMeasured(children, elements, levels) && levels >= 0
    ensures var b := Wrap(e, NewNode(id, kind, children), yard);
            b.Built? && Measured(b.value, elements + 1, levels + 1)
  {
    var node := NewNode(id, kind, children);
    assert [node][1..] == [] && ElementsOf([node]) == Elements(node);
    assert Measured(node, elements + 1, levels + 1);
  }

  lemma NoneAreMeasured(levels: int)
    ensures AllMeasured([], 0, levels)
  {
  }

  lemma ConsIsMeasured(t: BT.Tree, ts: seq<BT.Tree>, a: int, b: int, levels: int)
    requires Measured(t, a, levels) && AllMeasured(ts, b, levels)
    ensures AllMeasured([t] + ts, a + b, levels)
  {
    hide Elements, Shallow, SingleWrapped;
    assert ([t] + ts)[1..] == ts;
  }

  lemma OneIsMeasured(t: BT.Tree, elements: int, levels: int)
    requires Measured(t, elements, levels)
    ensures AllMeasured([t], elements, levels)
  {
    NoneAreMeasured(levels);
    ConsIsMeasured(t, [], elements, 0, levels);
    assert [t] + [] == [t];
  }

  /** The builder makes one behaviour per element that the walk counts, and nests them as the walk does. */
  lemma {:induction false} BuiltIsMeasured(site: Site, e: Element, above: string, depth: nat, stack: seq<string>, c: Check,
                                           yard: Yard)
    requires yard.subtrees == c.subtrees && FirstError(c.problems).None? && LimitReported(c)
    requires FirstError(Visit(site, true, e, above, depth, stack, c).problems).None?
    ensures var r := Visit(site, true, e, above, depth, stack, c);
            var b := BuildNode(site, e, above, stack, yard);
            b.Built? && Measured(b.value, r.count - c.count, MAX_TREE_DEPTH + 1 - depth)
    decreases MAX_SUBTREE_DEPTH - |stack|, e, 1
  {
    hide FixedKind, BuiltIn, Limits, ArityProblem, KindOf, NodeProblems, ConditionWarnings, Extend, Strip, Attr,
         SourceOf, FirstError, Wrap, Measured, AllMeasured, LimitReported;
    var path := Extend(above, e);
    var warnings := ConditionWarnings(site, e, path, 0);
    WarningsAreNoErrors(site, e, path, 0);
    FirstErrorAppend(c.problems, warnings);
    var c2 := c.(count := c.count + 1, problems := c.problems + warnings);
    NodeMatches(site, e, above, depth, stack, c, yard);
    LimitIsNoError(c, path);
    StillWithinLimits(c, c2);
    if e.tag == "SubTree" {
      assert SubtreeCause(site, true, e, stack, c2.subtrees).None?;
      var c3 := c2.(subtrees := AfterLookup(site, true, e, stack, c2.subtrees));
      StillWithinLimits(c, c3);
      var root := FindSubtree(site, c2.subtrees, SubtreeId(e)).element;
      var learned := yard.(subtrees := Remembered(site, yard.subtrees, SubtreeId(e)));
      BuiltIsMeasured(site, root, path, depth + 1, stack + [SubtreeId(e)], c3, learned);
      var inner := BuildNode(site, root, path, stack + [SubtreeId(e)], learned);
      var elements := Visit(site, true, root, path, depth + 1, stack + [SubtreeId(e)], c3).count - c3.count;
      OneIsMeasured(inner.value, elements, MAX_TREE_DEPTH - depth);
      NodeIsMeasured(e, inner.yard.next, BT.SubTree, [inner.value], inner.yard.(next := inner.yard.next + 1), elements,
                     MAX_TREE_DEPTH - depth);
    } else {
      var own := NodeProblems(site, e, path);
      var c3 := c2.(problems := c2.problems + own);
      var c4 := VisitAll(site, true, e.children, path, depth + 1, stack, c3);
      NodeErrors(site, e, path);
      FirstErrorAppend(c2.problems, own);
      EarlierIsClean(c3.problems, c4.problems);
      EarlierIsClean(c4.problems, Visit(site, true, e, above, depth, stack, c).problems);
      StillWithinLimits(c, c3);
      AllBuiltAreMeasured(site, e.children, path, depth + 1, stack, c3, yard);
      KindIsNoWrapper(site, e);
      var inner := BuildAll(site, e.children, path, stack, yard);
      NodeIsMeasured(e, inner.yard.next, KindOf(site, e).value, inner.value, inner.yard.(next := inner.yard.next + 1),
                     c4.count - c3.count, MAX_TREE_DEPTH - depth);
    }
  }

  lemma EarlierIsClean(ps: seq<Problem>, qs: seq<Problem>)
    requires ps <= qs && FirstError(qs).None?
    ensures FirstError(ps).None?
  {
    if FirstError(ps).Some? {
      FirstErrorStays(ps, qs);
    }
  }

  /** What a limit adds to the list is an error. */
  lemma LimitIsNoError(c: Check, path: string)
    ensures FirstError(c.problems + [Error(TooManyNodes, path)]).Some?
    ensures FirstError(c.problems + [Error(TooDeep, path)]).Some?
    ensures LimitReported(c) && FirstError(c.problems).None? ==> !c.limitHit && c.count <= MAX_TREE_NODES
  {
    ErrorEndsSearch(c.problems, TooManyNodes, path);
    ErrorEndsSearch(c.problems, TooDeep, path);
  }

  lemma StillWithinLimits(c: Check, d: Check)
    requires !c.limitHit && d.limitHit == c.limitHit && (d.count <= MAX_TREE_NODES || FirstError(d.problems).Some?)
    ensures LimitReported(d)
  {
  }

  lemma {:induction false} AllBuiltAreMeasured(site: Site, es: seq<Element>, path: string, depth: nat, stack: seq<string>,
                                               c: Check, yard: Yard)
    requires yard.subtrees == c.subtrees && FirstError(c.problems).None? && LimitReported(c)
    requires FirstError(VisitAll(site, true, es, path, depth, stack, c).problems).None?
    ensures var r := VisitAll(site, true, es, path, depth, stack, c);
            var b := BuildAll(site, es, path, stack, yard);
            b.Built? && AllMeasured(b.value, r.count - c.count, MAX_TREE_DEPTH + 1 - depth)
    decreases MAX_SUBTREE_DEPTH - |stack|, es, 0
  {
    hide BuildNode, Visit, FirstError, Measured, AllMeasured, LimitReported;
    if es == [] {
      NoneAreMeasured(MAX_TREE_DEPTH + 1 - depth);
    } else {
      var c1 := Visit(site, true, es[0], path, depth, stack, c);
      var r := VisitAll(site, true, es[1..], path, depth, stack, c1);
      EarlierIsClean(c1.problems, r.problems);
      NodeMatches(site, es[0], path, depth, stack, c, yard);
      LimitIsReported(site, true, es[0], path, depth, stack, c);
      BuiltIsMeasured(site, es[0], path, depth, stack, c, yard);
      var first := BuildNode(site, es[0], path, stack, yard);
      AllBuiltAreMeasured(site, es[1..], path, depth, stack, c1, first.yard);
      var rest := BuildAll(site, es[1..], path, stack, first.yard);
      ConsIsMeasured(first.value, rest.value, c1.count - c.count, r.count - c1.count, MAX_TREE_DEPTH + 1 - depth);
    }
  }

  /** With the wrappers there are at most twice as many nodes as elements. */
  lemma {:induction false} WrappersAtMostDouble(t: BT.Tree)
    requires SingleWrapped(t)
    ensures Elements(t) <= Size(t) <= 2 * Elements(t) && (!t.kind.Conditional? ==> Size(t) < 2 * Elements(t))
    decreases t, 0
  {
    if t.kind.Conditional? {
      var child := t.children[0];
      WrappersAtMostDouble(child);
      assert t.children == [child];
      OneChild(child);
    } else {
      AllWrappersAtMostDouble(t.children);
    }
  }

  lemma OneChild(t: BT.Tree)
    ensures ElementsOf([t]) == Elements(t) && SizeAll([t]) == Size(t)
  {
    hide Elements, Size;
    assert [t][1..] == [];
  }

  lemma {:induction false} AllWrappersAtMostDouble(ts: seq<BT.Tree>)
    requires forall i | 0 <= i < |ts| :: SingleWrapped(ts[i])
    ensures ElementsOf(ts) <= SizeAll(ts) <= 2 * ElementsOf(ts)
    decreases ts, 1
  {
    if ts == [] {
    } else {
      WrappersAtMostDouble(ts[0]);
      AllWrappersAtMostDouble(ts[1..]);
    }
  }

  /** However the registry and the resolver answer, a validation without errors has walked at most 4000 elements. */
  lemma CleanCountIsSmall(site: Site, root: Element, subtrees: map<string, Source>)
    requires FirstError(Validate(site, root, subtrees).problems).None?
    ensures Validate(site, root, subtrees).count <= MAX_TREE_NODES
  {
    hide FirstError, Visit;
    WholeWalks(site, root, subtrees);
  }

  /**
   A clean validation of a document in which only the builder finds nothing else: it builds, and but for the wrappers
   the tree has exactly the elements counted, at most 4000, on at most 201 levels.
   */
  lemma CleanMeansSmall(site: Site, root: Element, subtrees: map<string, Source>)
    requires FirstError(Validate(site, root, subtrees).problems).None?
    requires NothingElse(Strict(site, root, subtrees).problems)
    ensures var r := Validate(site, root, subtrees);
            var b := BuildTree(site, root, subtrees);
            && b.Built? && Ready(b.value, 0)
            && Elements(b.value) == r.count <= 4000
            && Shallow(b.value, 201)
            && SingleWrapped(b.value) && Size(b.value) <= 2 * r.count
  {
    hide FirstError, Visit, BuildNode, Ready, Elements, Shallow, SingleWrapped, Size;
    WholeWalks(site, root, subtrees);
    BuildFailsExactly(site, root, subtrees);
    CleanCountIsSmall(site, root, subtrees);
    BuiltIsReady(site, root, "", [], Yard(subtrees, 0));
    var strict := Strict(site, root, subtrees);
    if FirstError(strict.problems).Some? {
      FirstErrorIsThere(strict.problems);
    }
    NoError();
    BuiltIsMeasured(site, root, "", 0, [], Check([], 0, false, subtrees), Yard(subtrees, 0));
    WrappersAtMostDouble(BuildTree(site, root, subtrees).value);
  }

  /** Such a document runs with the whole-tree invariant, whatever its leaves do. */
  lemma ValidatedTreesRunTidily<W>(site: Site, root: Element, subtrees: map<string, Source>, events: seq<TI.Event<W>>)
    requires FirstError(Validate(site, root, subtrees).problems).None?
    requires NothingElse(Strict(site, root, subtrees).problems)
    ensures var b := BuildTree(site, root, subtrees);
            && b.Built? && BT.Fits(BT.Skeleton(b.value)) && TI.Tidy(TI.After(b.value, events))
  {
    hide FirstError, Validate, Strict, BuildTree;
    CleanMeansSmall(site, root, subtrees);
    TI.BuiltIsUnstarted(BuildTree(site, root, subtrees).value);
    TI.EveryRunIsTidy(BuildTree(site, root, subtrees).value, events);
  }
}
