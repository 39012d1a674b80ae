/**
 Behaviour trees as documents: elements with a tag, attributes and children, the table of known tags, and where the
 trees that a SubTree names come from.
 */
module TreeDocuments {
  import opened Wrappers
  import BT = BehaviourTrees

  datatype Element = Element(tag: string, attrs: map<string, string>, children: seq<Element>)

  /** A tree found by name: text that was read (or not), or an element of a document read before. */
  datatype Source =
    | BlankText
    | BadText(reason: string)
    | Text(main: Element, others: map<string, Element>)
    | Tree(root: Element)

  /** What a resolver answers. */
  datatype Answer = Raises(reason: string) | Nothing | Found(source: Source)

  /** Everything outside the document that the checker and the builder depend on. */
  datatype Site = Site(
    resolver: Option<string -> Answer>,
    plugins: set<string>,                          // tags of custom nodes; none of them is child-count checked
    parses: string -> bool,                        // is this a readable condition?
    badScript: string -> bool,
    count: (map<string, string>, string) -> Option<int>, // a Parallel's count ports, defaults included
    raises: (string, map<string, string>, nat) -> bool   // any other builder that fails
  )

  const MAX_SUBTREE_DEPTH := 16
  const MAX_TREE_NODES := 4000
  const MAX_TREE_DEPTH := 200

  const CONDITIONS := ["_skipIf", "_successIf", "_failureIf", "_while"]

  function Attr(e: Element, name: string): string {
    if name in e.attrs then e.attrs[name] else ""
  }

  // ---------------------------------------------------------------- known tags

  const LEAVES := {"AlwaysSuccess", "AlwaysFailure", "SetBlackboard", "UnsetBlackboard", "Sleep", "ScriptCondition",
                   "WasEntryUpdated", "Script", "Wait", "ParamSet", "PlayAudio", "DockRobot", "CheckBatteryLevel",
                   "SpeakText", "NotifyPatient", "LoadNextDelivery", "NavigateTo"}

  const LOOPS := {"LoopInt", "LoopDouble", "LoopBool", "LoopString"}

  /** The kinds of the built-in tags other than leaves and Parallel, whose kind depends on its ports. */
  function FixedKind(tag: string): Option<BT.Kind> {
    match tag
    case "Inverter" => Some(BT.Inverter)
    case "ForceSuccess" => Some(BT.ForceSuccess)
    case "ForceFailure" => Some(BT.ForceFailure)
    case "Repeat" => Some(BT.Repeat)
    case "RetryUntilSuccessful" => Some(BT.Retry)
    case "KeepRunningUntilFailure" => Some(BT.KeepRunning)
    case "Delay" => Some(BT.Delay)
    case "Timeout" => Some(BT.Timeout)
    case "RunOnce" => Some(BT.RunOnce)
    case "Precondition" => Some(BT.Precondition)
    case "SkipUnlessUpdated" => Some(BT.SkipUnlessUpdated)
    case "WaitValueUpdate" => Some(BT.WaitValueUpdate)
    case "Sequence" | "AsyncSequence" => Some(BT.Sequence(true))
    case "Fallback" | "Selector" | "AsyncFallback" => Some(BT.Selector(true))
    case "ReactiveSequence" => Some(BT.Sequence(false))
    case "ReactiveFallback" => Some(BT.Selector(false))
    case "SequenceWithMemory" | "SequenceStar" => Some(BT.SequenceWithMemory)
    case "ParallelAll" => Some(BT.ParallelAll)
    case "IfThenElse" => Some(BT.IfThenElse)
    case "WhileDoElse" => Some(BT.WhileDoElse)
    case "Switch2" => Some(BT.Switch(2))
    case "Switch3" => Some(BT.Switch(3))
    case "Switch4" => Some(BT.Switch(4))
    case "Switch5" => Some(BT.Switch(5))
    case "Switch6" => Some(BT.Switch(6))
    case _ => None
  }

  predicate BuiltIn(tag: string) {
    tag in LEAVES || tag in LOOPS || tag == "Parallel" || FixedKind(tag).Some?
  }

  predicate Registered(site: Site, tag: string) {
    BuiltIn(tag) || tag in site.plugins
  }

  /** NODE_ARITY: how many children a built-in tag takes; None for a tag without an entry. */
  function Limits(tag: string): Option<(nat, Option<nat>)> {
    if tag in LEAVES then Some((0, Some(0)))
    else if tag in LOOPS then Some((1, Some(1)))
    else if tag == "Parallel" then Some((0, None))
    else
      match FixedKind(tag)
      case Some(kind) => Some(BT.Arity(kind))
      case None => None
  }

  /** `_arity_problem`, branch by branch. */
  predicate ArityProblem(tag: string, n: nat) {
    match Limits(tag)
    case None => false
    case Some((low, high)) =>
      if high == Some(0) && n > 0 then true
      else if high == Some(low) && n != low then true
      else if n < low then true
      else high.Some? && n > high.value
  }

  /** The node a builder makes, or None if it raises. */
  function KindOf(site: Site, e: Element): Option<BT.Kind> {
    var n := |e.children|;
    if e.tag in LEAVES then Some(BT.Leaf)
    else if e.tag in LOOPS then Some(BT.Loop)
    else if e.tag == "Parallel" then
      match (site.count(e.attrs, "success_count"), site.count(e.attrs, "failure_count"))
      case (Some(sc), Some(fc)) => Some(BT.CountingParallel(BT.CountFrom(sc, n), BT.CountFrom(fc, n)))
      case _ => None
    else if FixedKind(e.tag).Some? then FixedKind(e.tag)
    else if site.raises(e.tag, e.attrs, n) then None
    else Some(BT.Leaf)
  }

  /** What passes the arity check is a node that can run. */
  lemma ArityCheckIsEnough(site: Site, e: Element)
    requires !ArityProblem(e.tag, |e.children|) && KindOf(site, e).Some?
    ensures BT.ArityOk(KindOf(site, e).value, |e.children|)
  {
  }

  /** The branches of the arity check together say: too few or too many. */
  lemma ArityProblemMeansOutside(tag: string, n: nat)
    ensures ArityProblem(tag, n) <==>
            Limits(tag).Some? && (n < Limits(tag).value.0 || n > Limits(tag).value.1.GetOr(n))
  {
  }

  // ----------------------------------------------------------------- finding subtrees

  datatype Lookup = NotFound(reason: string) | Root(element: Element)

  /** `find_subtree` without its side effect. */
  function FindSubtree(site: Site, subtrees: map<string, Source>, id: string): Lookup {
    match SourceOf(site, subtrees, id)
    case Raises(reason) => NotFound(reason)
    case Nothing => NotFound("it doesn't exist on this robot")
    case Found(BlankText) => NotFound("it doesn't exist on this robot")
    case Found(BadText(reason)) => NotFound(reason)
    case Found(Text(main, _)) => Root(main)
    case Found(Tree(root)) => Root(root)
  }

  function SourceOf(site: Site, subtrees: map<string, Source>, id: string): Answer {
    if id in subtrees then Found(subtrees[id])
    else
      match site.resolver
      case None => Nothing
      case Some(resolve) => resolve(id)
  }

  /** The known trees after `find_subtree`: the answer is kept, and other trees of its document are added. */
  function Remembered(site: Site, subtrees: map<string, Source>, id: string): map<string, Source> {
    match SourceOf(site, subtrees, id)
    case Found(source) =>
      var kept := subtrees[id := source];
      if source.Text? then (map k | k in source.others :: Tree(source.others[k])) + kept else kept
    case _ => subtrees
  }

  function IsSpace(c: char): bool {
    c in {' ', '\t', '\n', '\r'}
  }

  /** `strip()` */
  function Strip(s: string): string
    decreases |s|
  {
    if s != "" && IsSpace(s[0]) then Strip(s[1..])
    else if s != "" && IsSpace(s[|s| - 1]) then Strip(s[..|s| - 1])
    else s
  }

  function SubtreeId(e: Element): string {
    Strip(Attr(e, "ID"))
  }

  /** `describe` */
  function Describe(e: Element): string {
    var name := Attr(e, "name");
    if name != "" && name != e.tag then e.tag + "(" + name + ")" else e.tag
  }

  function Extend(path: string, e: Element): string {
    if path != "" then path + " > " + Describe(e) else Describe(e)
  }
}
