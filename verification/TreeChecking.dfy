/**
 The static checker and the builder, as functions: what one walk over a document (with every SubTree expanded in
 place) finds wrong, and the tree that the other walk makes of it or the place where it gives up.
 */
module TreeChecking {
  import opened Wrappers
  import opened TreeDocuments
  import BT = BehaviourTrees

  datatype Cause =
    | TooManyNodes
    | TooDeep
    | NoId
    | HasChildren
    | Loop
    | NestedTooDeep
    | Missing(reason: string)
    | Unknown
    | Arity
    | BuilderFailed

  datatype Problem = Error(cause: Cause, path: string) | Warning(about: string, path: string)

  /** The checker's variables: the problems found, the elements counted, and the trees known so far. */
  datatype Check = Check(problems: seq<Problem>, count: nat, limitHit: bool, subtrees: map<string, Source>)

  function Report(c: Check, cause: Cause, path: string): Check {
    c.(problems := c.problems + [Error(cause, path)])
  }

  /** Only the first violated limit is reported. */
  function ReportLimit(c: Check, cause: Cause, path: string): Check {
    if c.limitHit then c else Report(c, cause, path).(limitHit := true)
  }

  /** What is wrong with a SubTree element itself. `strict` adds the check that only the builder makes. */
  function SubtreeCause(site: Site, strict: bool, e: Element, stack: seq<string>, subtrees: map<string, Source>)
    : Option<Cause>
  {
    var id := SubtreeId(e);
    if id == "" then Some(NoId)
    else if strict && e.children != [] then Some(HasChildren)
    else if id in stack then Some(Loop)
    else if |stack| >= MAX_SUBTREE_DEPTH then Some(NestedTooDeep)
    else
      match FindSubtree(site, subtrees, id)
      case NotFound(reason) => Some(Missing(reason))
      case Root(_) => None
  }

  /** The trees known after looking at a SubTree element: looking up is the last check, and it may learn. */
  function AfterLookup(site: Site, strict: bool, e: Element, stack: seq<string>, subtrees: map<string, Source>)
    : map<string, Source>
  {
    match SubtreeCause(site, strict, e, stack, subtrees)
    case None => Remembered(site, subtrees, SubtreeId(e))
    case Some(Missing(_)) => Remembered(site, subtrees, SubtreeId(e))
    case _ => subtrees
  }

  function ConditionWarnings(site: Site, e: Element, path: string, i: nat): seq<Problem>
    requires i <= |CONDITIONS|
    decreases |CONDITIONS| - i
  {
    if i == |CONDITIONS| then []
    else
      var text := Attr(e, CONDITIONS[i]);
      (if text != "" && !site.parses(text) then [Warning(CONDITIONS[i], path)] else [])
      + ConditionWarnings(site, e, path, i + 1)
  }

  /** What is wrong with an ordinary element itself. */
  function NodeProblems(site: Site, e: Element, path: string): seq<Problem> {
    if !Registered(site, e.tag) then [Error(Unknown, path)]
    else
      var n := |e.children|;
      var open := Limits(e.tag).Some? && Limits(e.tag).value.1.None?;
      (if ArityProblem(e.tag, n) then [Error(Arity, path)]
       else if open && n == 0 then [Warning("no children", path)] else [])
      + (if e.tag == "Script" && Strip(Attr(e, "code")) != "" && site.badScript(Attr(e, "code"))
         then [Warning("script", path)] else [])
  }

  /** The builder of an element that the checker finds nothing wrong with raises. */
  predicate Refused(site: Site, e: Element) {
    Registered(site, e.tag) && !ArityProblem(e.tag, |e.children|) && KindOf(site, e).None?
  }

  /**
   `visit`: the walk of `validate_tree` below one element. The strict walk also reports what only the builder notices:
   children of a SubTree, and builders that raise, which they do once the children are built.
   */
  function Visit(site: Site, strict: bool, e: Element, above: string, depth: nat, stack: seq<string>, c: Check)
    : (r: Check)
    ensures c.problems <= r.problems && c.count <= r.count && (c.limitHit ==> r.limitHit)
    decreases MAX_SUBTREE_DEPTH - |stack|, e, 1
  {
    hide AfterLookup, SourceOf, ConditionWarnings, NodeProblems, Extend, Refused;
    var path := Extend(above, e);
    var c1 := c.(count := c.count + 1);
    if c1.count > MAX_TREE_NODES then ReportLimit(c1, TooManyNodes, path)
    else if depth > MAX_TREE_DEPTH then ReportLimit(c1, TooDeep, path)
    else
      var c2 := c1.(problems := c1.problems + ConditionWarnings(site, e, path, 0));
      if e.tag == "SubTree" then
        var c3 := c2.(subtrees := AfterLookup(site, strict, e, stack, c2.subtrees));
        match SubtreeCause(site, strict, e, stack, c2.subtrees)
        case Some(cause) => Report(c3, cause, path)
        case None =>
          var root := FindSubtree(site, c2.subtrees, SubtreeId(e)).element;
          Visit(site, strict, root, path, depth + 1, stack + [SubtreeId(e)], c3)
      else
        var c3 := c2.(problems := c2.problems + NodeProblems(site, e, path));
        var c4 := VisitAll(site, strict, e.children, path, depth + 1, stack, c3);
        if strict && Refused(site, e) then Report(c4, BuilderFailed, path) else c4
  }

  function VisitAll(site: Site, strict: bool, es: seq<Element>, path: string, depth: nat, stack: seq<string>, c: Check)
    : (r: Check)
    ensures c.problems <= r.problems && c.count <= r.count && (c.limitHit ==> r.limitHit)
    decreases MAX_SUBTREE_DEPTH - |stack|, es, 0
  {
    if es == [] then c
    else
      var c1 := Visit(site, strict, es[0], path, depth, stack, c);
      VisitAll(site, strict, es[1..], path, depth, stack, c1)
  }

  /** `validate_tree` on a document that could be read. */
  function Validate(site: Site, root: Element, subtrees: map<string, Source>): Check {
    Visit(site, false, root, "", 0, [], Check([], 0, false, subtrees))
  }

  // -------------------------------------------------------------------- building

  /** What a build has done so far: the trees it knows and the ids it has given out. */
  datatype Yard = Yard(subtrees: map<string, Source>, next: nat)

  datatype Build<+T> = Built(value: T, yard: Yard) | Failed(cause: Cause, path: string)

  function NewNode(id: nat, kind: BT.Kind, children: seq<BT.Tree>): BT.Tree {
    BT.Node(id, kind, BT.Invalid, BT.BLANK, children)
  }

  function ConditionsOf(e: Element): set<BT.Condition> {
    (if Attr(e, "_skipIf") != "" then {BT.SkipIf} else {})
    + (if Attr(e, "_failureIf") != "" then {BT.FailureIf} else {})
    + (if Attr(e, "_successIf") != "" then {BT.SuccessIf} else {})
    + (if Attr(e, "_while") != "" then {BT.While} else {})
  }

  /** `_wrap_conditional` around a node made last. */
  function Wrap(e: Element, node: BT.Tree, yard: Yard): Build<BT.Tree> {
    if ConditionsOf(e) == {} then Built(node, yard)
    else Built(NewNode(yard.next, BT.Conditional(ConditionsOf(e)), [node]), yard.(next := yard.next + 1))
  }

  /** `build_node` */
  function BuildNode(site: Site, e: Element, above: string, stack: seq<string>, yard: Yard): (r: Build<BT.Tree>)
    ensures r.Built? ==> yard.next < r.yard.next
    decreases MAX_SUBTREE_DEPTH - |stack|, e, 1
  {
    var path := Extend(above, e);
    if e.tag == "SubTree" then BuildSubtree(site, e, path, stack, yard)
    else if !Registered(site, e.tag) then Failed(Unknown, path)
    else if ArityProblem(e.tag, |e.children|) then Failed(Arity, path)
    else
      match BuildAll(site, e.children, path, stack, yard)
      case Failed(cause, at) => Failed(cause, at)
      case Built(children, y) =>
        match KindOf(site, e)
        case None => Failed(BuilderFailed, path)
        case Some(kind) => Wrap(e, NewNode(y.next, kind, children), y.(next := y.next + 1))
  }

  /** `_build_subtree`, and the wrapper around its node. */
  function BuildSubtree(site: Site, e: Element, path: string, stack: seq<string>, yard: Yard): (r: Build<BT.Tree>)
    ensures r.Built? ==> yard.next < r.yard.next
    decreases MAX_SUBTREE_DEPTH - |stack|, e, 0
  {
    match SubtreeCause(site, true, e, stack, yard.subtrees)
    case Some(cause) => Failed(cause, path)
    case None =>
      var root := FindSubtree(site, yard.subtrees, SubtreeId(e)).element;
      var learned := yard.(subtrees := Remembered(site, yard.subtrees, SubtreeId(e)));
      match BuildNode(site, root, path, stack + [SubtreeId(e)], learned)
      case Failed(cause, at) => Failed(cause, at)
      case Built(child, y) => Wrap(e, NewNode(y.next, BT.SubTree, [child]), y.(next := y.next + 1))
  }

  function BuildAll(site: Site, es: seq<Element>, path: string, stack: seq<string>, yard: Yard)
    : (r: Build<seq<BT.Tree>>)
    ensures r.Built? ==> yard.next <= r.yard.next && |r.value| == |es|
    decreases MAX_SUBTREE_DEPTH - |stack|, es, 0
  {
    if es == [] then Built([], yard)
    else
      match BuildNode(site, es[0], path, stack, yard)
      case Failed(cause, at) => Failed(cause, at)
      case Built(first, y) =>
        match BuildAll(site, es[1..], path, stack, y)
        case Failed(cause, at) => Failed(cause, at)
        case Built(rest, z) => Built([first] + rest, z)
  }

  /** `build_tree` */
  function BuildTree(site: Site, root: Element, subtrees: map<string, Source>): Build<BT.Tree> {
    BuildNode(site, root, "", [], Yard(subtrees, 0))
  }

  /** A build of the remaining children, after the children ts. */
  function Before(ts: seq<BT.Tree>, b: Build<seq<BT.Tree>>): Build<seq<BT.Tree>> {
    match b
    case Failed(cause, at) => Failed(cause, at)
    case Built(rest, y) => Built(ts + rest, y)
  }

  lemma BeforeMore(site: Site, es: seq<Element>, path: string, stack: seq<string>, yard: Yard, ts: seq<BT.Tree>)
    requires es != [] && BuildNode(site, es[0], path, stack, yard).Built?
    ensures var first := BuildNode(site, es[0], path, stack, yard);
            Before(ts, BuildAll(site, es, path, stack, yard))
            == Before(ts + [first.value], BuildAll(site, es[1..], path, stack, first.yard))
  {
    hide BuildNode;
    var first := BuildNode(site, es[0], path, stack, yard);
    match BuildAll(site, es[1..], path, stack, first.yard)
    case Failed(_, _) =>
    case Built(rest, _) => assert (ts + [first.value]) + rest == ts + ([first.value] + rest);
  }
}
