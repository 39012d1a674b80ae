/**
 What a validation reports besides the errors at which a build would fail, and which trees a walk knows: warnings, the
 two limits, the paths of problems, and the documents that SubTree elements bring in.
 */
module TreeReports {
  import opened Wrappers
  import opened TreeDocuments
  import opened TreeChecking
  import BT = BehaviourTrees

  // -------------------------------------------------------------------------------- warnings

  /** A condition attribute is warned about exactly if it is there and cannot be read. */
  lemma ConditionWarningsTell(site: Site, e: Element, path: string, about: string)
    ensures Warning(about, path) in ConditionWarnings(site, e, path, 0)
       <==> about in {"_skipIf", "_failureIf", "_successIf", "_while"} && Attr(e, about) != ""
            && !site.parses(Attr(e, about))
    ensures forall p | p in ConditionWarnings(site, e, path, 0) :: p.Warning? && p.path == path
  {
    hide Attr;
    WarningsFrom(site, e, path, 0, about);
    assert CONDITIONS[0] == "_skipIf" && CONDITIONS[1] == "_successIf" && CONDITIONS[2] == "_failureIf"
        && CONDITIONS[3] == "_while";
  }

  lemma {:induction false} WarningsFrom(site: Site, e: Element, path: string, i: nat, about: string)
    requires i <= |CONDITIONS|
    ensures Warning(about, path) in ConditionWarnings(site, e, path, i)
       <==> exists j :: i <= j < |CONDITIONS| && CONDITIONS[j] == about && Attr(e, about) != "" && !site.parses(Attr(e, about))
    ensures forall p | p in ConditionWarnings(site, e, path, i) :: p.Warning? && p.path == path
    decreases |CONDITIONS| - i
  {
    hide Attr;
    if i < |CONDITIONS| {
      WarningsFrom(site, e, path, i + 1, about);
    }
  }

  /** The other findings about one element: an unknown tag, a wrong number of children, none where any number may be. */
  lemma NodeProblemsTell(site: Site, e: Element, path: string)
    ensures var ps := NodeProblems(site, e, path);
            var n := |e.children|;
            && (Error(Unknown, path) in ps <==> !Registered(site, e.tag))
            && (Error(Arity, path) in ps <==>
                  Registered(site, e.tag) && Limits(e.tag).Some?
                  && (n < Limits(e.tag).value.0 || n > Limits(e.tag).value.1.GetOr(n)))
            && (Warning("no children", path) in ps <==>
                  Registered(site, e.tag) && n == 0 && Limits(e.tag) == Some((0, None)))
            && (Warning("script", path) in ps <==>
                  e.tag == "Script" && Registered(site, e.tag) && Strip(Attr(e, "code")) != "" && site.badScript(Attr(e, "code")))
  {
    hide FixedKind, Strip, Attr, Registered;
    ArityProblemMeansOutside(e.tag, |e.children|);
  }

  /** What is said of a SubTree: no ID, children (by the builder), a tree inside itself, more than 16 deep, or not found. */
  lemma SubtreeProblemsTell(site: Site, strict: bool, e: Element, stack: seq<string>, known: map<string, Source>)
    ensures var cause := SubtreeCause(site, strict, e, stack, known);
            var id := SubtreeId(e);
            var childful := strict && e.children != [];
            && (cause == Some(NoId) <==> AllSpace(Attr(e, "ID")))
            && (cause == Some(HasChildren) <==> id != "" && childful)
            && (cause == Some(Loop) <==> id != "" && !childful && id in stack)
            && (cause == Some(NestedTooDeep) <==> id != "" && !childful && id !in stack && |stack| >= 16)
            && (cause.None? <==> id != "" && !childful && id !in stack && |stack| < 16
                                 && ElementOf(Behind(site, known, id)).Some?)
  {
    hide Strip, Attr, FindSubtree, Behind, ElementOf;
    LookupLearns(site, known, SubtreeId(e));
    StripTrims(Attr(e, "ID"));
    OnlySpace(Attr(e, "ID"), Strip(Attr(e, "ID")));
  }

  lemma OnlySpace(s: string, id: string)
    requires Trims(s, id)
    ensures id == "" <==> AllSpace(s)
  {
    var u, v :| AllSpace(u) && AllSpace(v) && s == u + id + v;
    if id == "" {
      assert s == u + v;
    } else {
      assert s[|u|] == id[0] && id[..1] == [id[0]];
    }
  }

  /** The tags a robot knows, plugins aside. */
  lemma KnownTags(site: Site, tag: string)
    ensures Registered(site, tag) <==>
            || tag in site.plugins
            || tag in {"AlwaysSuccess", "AlwaysFailure", "SetBlackboard", "UnsetBlackboard", "Sleep", "ScriptCondition",
                       "WasEntryUpdated", "Script", "Wait", "ParamSet", "PlayAudio", "DockRobot", "CheckBatteryLevel",
                       "SpeakText", "NotifyPatient", "LoadNextDelivery", "NavigateTo"}
            || tag in {"LoopInt", "LoopDouble", "LoopBool", "LoopString", "Parallel", "ParallelAll"}
            || tag in {"Inverter", "ForceSuccess", "ForceFailure", "Repeat", "RetryUntilSuccessful", "Delay", "Timeout",
                       "KeepRunningUntilFailure", "RunOnce", "Precondition", "SkipUnlessUpdated", "WaitValueUpdate"}
            || tag in {"Sequence", "AsyncSequence", "Fallback", "Selector", "AsyncFallback", "ReactiveSequence",
                       "ReactiveFallback", "SequenceWithMemory", "SequenceStar"}
            || tag in {"IfThenElse", "WhileDoElse", "Switch2", "Switch3", "Switch4", "Switch5", "Switch6"}
  {
  }

  lemma LeavesAreNotFixed(tag: string)
    ensures tag in LEAVES ==> FixedKind(tag).None?
  {
  }

  lemma LoopsAreNotFixed(tag: string)
    ensures tag in LOOPS || tag == "Parallel" ==> FixedKind(tag).None?
  {
  }

  lemma FixedLimits(tag: string)
    ensures FixedKind(tag).Some? ==> Limits(tag) == Some(BT.Arity(FixedKind(tag).value))
  {
    LeavesAreNotFixed(tag);
    LoopsAreNotFixed(tag);
    hide FixedKind;
  }

  /** And how many children they take: a leaf none, a decorator one, */
  lemma DecoratorLimits(tag: string)
    requires tag in {"LoopInt", "LoopDouble", "LoopBool", "LoopString", "Inverter", "ForceSuccess", "ForceFailure", "Repeat",
                     "RetryUntilSuccessful", "KeepRunningUntilFailure", "Delay", "Timeout", "RunOnce", "Precondition",
                     "SkipUnlessUpdated", "WaitValueUpdate"}
    ensures Limits(tag) == Some((1, Some(1)))
  {
  }

  /** any number for these, */
  lemma ControlLimits(tag: string)
    requires tag in {"Sequence", "AsyncSequence", "Fallback", "Selector", "AsyncFallback", "ReactiveSequence",
                     "ReactiveFallback", "SequenceWithMemory", "SequenceStar", "ParallelAll"}
    ensures Limits(tag) == Some((0, None)) == Limits("Parallel")
  {
    ParallelLimits();
    hide Limits;
    FixedLimits(tag);
  }

  lemma ParallelLimits()
    ensures Limits("Parallel") == Some((0, None))
  {
  }

  /** and the branching ones a condition or a number of cases, and their branches. */
  lemma BranchLimits(tag: string)
    ensures tag in {"IfThenElse", "WhileDoElse"} ==> Limits(tag) == Some((2, Some(3)))
    ensures tag == "Switch2" ==> Limits(tag) == Some((3, Some(3)))
    ensures tag == "Switch3" ==> Limits(tag) == Some((4, Some(4)))
    ensures tag == "Switch4" ==> Limits(tag) == Some((5, Some(5)))
    ensures tag == "Switch5" ==> Limits(tag) == Some((6, Some(6)))
    ensures tag == "Switch6" ==> Limits(tag) == Some((7, Some(7)))
  {
    hide Limits;
    FixedLimits(tag);
  }

  // ----------------------------------------------------------------------------------- limits

  ghost predicate Reported(ps: seq<Problem>, cause: Cause) {
    exists p | p in ps :: p.Error? && p.cause == cause
  }

  /** The limits are told apart, and more than 4000 elements do not go unnoticed. */
  ghost predicate LimitsTold(c: Check) {
    && (Reported(c.problems, TooManyNodes) ==> c.count > 4000)
    && (c.limitHit <==> Reported(c.problems, TooManyNodes) || Reported(c.problems, TooDeep))
    && (c.count > 4000 ==> c.limitHit)
  }

  lemma ReportedAppend(ps: seq<Problem>, qs: seq<Problem>, cause: Cause)
    ensures Reported(ps + qs, cause) <==> Reported(ps, cause) || Reported(qs, cause)
  {
    if Reported(ps + qs, cause) {
      var p :| p in ps + qs && p.Error? && p.cause == cause;
      assert p in ps || p in qs;
    }
    forall p | p in ps || p in qs
      ensures p in ps + qs
    {
    }
  }

  /** Findings that are not limits change nothing about the limits. */
  lemma OthersAreNoLimits(c: Check, qs: seq<Problem>)
    requires LimitsTold(c) && forall p | p in qs :: p.Error? ==> p.cause != TooManyNodes && p.cause != TooDeep
    ensures LimitsTold(c.(problems := c.problems + qs))
  {
    ReportedAppend(c.problems, qs, TooManyNodes);
    ReportedAppend(c.problems, qs, TooDeep);
  }

  lemma LimitIsTold(c: Check, cause: Cause, path: string)
    requires c.count > 0 && LimitsTold(c.(count := c.count - 1))
    requires if cause == TooManyNodes then c.count > 4000 else cause == TooDeep && c.count <= 4000
    ensures LimitsTold(ReportLimit(c, cause, path))
    ensures Reported(ReportLimit(c, cause, path).problems, TooManyNodes)
         || Reported(ReportLimit(c, cause, path).problems, TooDeep)
  {
    var one := [Error(cause, path)];
    assert one[0] in one;
    ReportedAppend(c.problems, one, TooManyNodes);
    ReportedAppend(c.problems, one, TooDeep);
  }

  lemma {:induction false} LimitsAreTold(site: Site, strict: bool, e: Element, above: string, depth: nat, stack: seq<string>,
                                         c: Check)
    requires LimitsTold(c)
    ensures var r := Visit(site, strict, e, above, depth, stack, c);
            LimitsTold(r) && (depth > 200 ==> r.limitHit)
    decreases MAX_SUBTREE_DEPTH - |stack|, e, 1
  {
    hide AfterLookup, SourceOf, ConditionWarnings, NodeProblems, Extend, Refused, LimitsTold, Reported;
    var path := Extend(above, e);
    var c1 := c.(count := c.count + 1);
    if c1.count > MAX_TREE_NODES {
      LimitIsTold(c1, TooManyNodes, path);
    } else if depth > MAX_TREE_DEPTH {
      LimitIsTold(c1, TooDeep, path);
    } else {
      OneMoreIsFine(c);
      ConditionWarningsTell(site, e, path, "");
      OthersAreNoLimits(c1, ConditionWarnings(site, e, path, 0));
      var c2 := c1.(problems := c1.problems + ConditionWarnings(site, e, path, 0));
      if e.tag == "SubTree" {
        var c3 := c2.(subtrees := AfterLookup(site, strict, e, stack, c2.subtrees));
        TreesDoNotMatter(c2, c3);
        if SubtreeCause(site, strict, e, stack, c2.subtrees).None? {
          var root := FindSubtree(site, c2.subtrees, SubtreeId(e)).element;
          LimitsAreTold(site, strict, root, path, depth + 1, stack + [SubtreeId(e)], c3);
        } else {
          OthersAreNoLimits(c3, [Error(SubtreeCause(site, strict, e, stack, c2.subtrees).value, path)]);
        }
      } else {
        NoLimitsHere(site, e, path);
        OthersAreNoLimits(c2, NodeProblems(site, e, path));
        var c3 := c2.(problems := c2.problems + NodeProblems(site, e, path));
        AllLimitsAreTold(site, strict, e.children, path, depth + 1, stack, c3);
        OthersAreNoLimits(VisitAll(site, strict, e.children, path, depth + 1, stack, c3), [Error(BuilderFailed, path)]);
      }
    }
  }

  lemma OneMoreIsFine(c: Check)
    requires LimitsTold(c) && c.count < 4000
    ensures LimitsTold(c.(count := c.count + 1))
  {
  }

  lemma TreesDoNotMatter(c: Check, d: Check)
    requires LimitsTold(c) && d == c.(subtrees := d.subtrees)
    ensures LimitsTold(d)
  {
  }

  lemma NoLimitsHere(site: Site, e: Element, path: string)
    ensures forall p | p in NodeProblems(site, e, path) :: p.Error? ==> p.cause != TooManyNodes && p.cause != TooDeep
  {
    hide FixedKind, Strip, Attr, Registered, ArityProblem, Limits;
  }

  lemma {:induction false} AllLimitsAreTold(site: Site, strict: bool, es: seq<Element>, path: string, depth: nat,
                                            stack: seq<string>, c: Check)
    requires LimitsTold(c)
    ensures LimitsTold(VisitAll(site, strict, es, path, depth, stack, c))
    decreases MAX_SUBTREE_DEPTH - |stack|, es, 0
  {
    hide LimitsTold;
    if es == [] {
    } else {
      LimitsAreTold(site, strict, es[0], path, depth, stack, c);
      AllLimitsAreTold(site, strict, es[1..], path, depth, stack, Visit(site, strict, es[0], path, depth, stack, c));
    }
  }

  /** A validation says "too many" only of more than 4000 elements, and says one of the two whenever there are more. */
  lemma ValidationTellsLimits(site: Site, root: Element, subtrees: map<string, Source>)
    ensures var r := Validate(site, root, subtrees);
            && (Reported(r.problems, TooManyNodes) ==> r.count > 4000)
            && (r.count > 4000 ==> Reported(r.problems, TooManyNodes) || Reported(r.problems, TooDeep))
  {
    LimitsAreTold(site, false, root, "", 0, [], Check([], 0, false, subtrees));
  }

  // ------------------------------------------------------------------------------- known trees

  /** No tree that is known is forgotten or replaced. */
  ghost predicate Remembers(a: map<string, Source>, b: map<string, Source>) {
    forall id | id in a :: id in b && b[id] == a[id]
  }

  /** What stands behind an ID: a tree that is known, and otherwise what the resolver answers. */
  function Behind(site: Site, known: map<string, Source>, id: string): Answer {
    if id in known then Found(known[id]) else if site.resolver.None? then Nothing else site.resolver.value(id)
  }

  /** And the element it stands for, if there is one. */
  function ElementOf(answer: Answer): Option<Element> {
    match answer
    case Found(Text(main, _)) => Some(main)
    case Found(Tree(root)) => Some(root)
    case _ => None
  }

  /** Looking up an ID finds what is behind it; a document that was read brings the trees it holds, and nothing is lost. */
  lemma LookupLearns(site: Site, known: map<string, Source>, id: string)
    ensures FindSubtree(site, known, id).Root? <==> ElementOf(Behind(site, known, id)).Some?
    ensures FindSubtree(site, known, id).Root? ==>
              FindSubtree(site, known, id).element == ElementOf(Behind(site, known, id)).value
    ensures var after := Remembered(site, known, id);
            && Remembers(known, after)
            && (Behind(site, known, id).Found? ==>
                  var source := Behind(site, known, id).source;
                  && id in after && after[id] == source
                  && (forall k | k in after :: k in known || k == id || (source.Text? && k in source.others))
                  && (source.Text? ==> forall k | k in source.others ::
                        k in after && (k !in known && k != id ==> after[k] == Tree(source.others[k]))))
            && (!Behind(site, known, id).Found? ==> after == known)
  {
  }

  /** Through a whole build nothing that is known is forgotten or replaced. */
  lemma {:induction false} BuildRemembers(site: Site, e: Element, above: string, stack: seq<string>, yard: Yard)
    ensures var b := BuildNode(site, e, above, stack, yard);
            b.Built? ==> Remembers(yard.subtrees, b.yard.subtrees)
    decreases MAX_SUBTREE_DEPTH - |stack|, e, 1
  {
    hide Registered, ArityProblem, KindOf, ConditionsOf, Extend, Strip, Attr, FindSubtree, Remembered;
    var path := Extend(above, e);
    if e.tag == "SubTree" {
      assert BuildNode(site, e, above, stack, yard) == BuildSubtree(site, e, path, stack, yard);
      if SubtreeCause(site, true, e, stack, yard.subtrees).None? {
        var root := FindSubtree(site, yard.subtrees, SubtreeId(e)).element;
        var learned := yard.(subtrees := Remembered(site, yard.subtrees, SubtreeId(e)));
        LookupLearns(site, yard.subtrees, SubtreeId(e));
        BuildRemembers(site, root, path, stack + [SubtreeId(e)], learned);
      }
    } else {
      AllBuildsRemember(site, e.children, path, stack, yard);
    }
  }

  lemma {:induction false} AllBuildsRemember(site: Site, es: seq<Element>, path: string, stack: seq<string>, yard: Yard)
    ensures var b := BuildAll(site, es, path, stack, yard);
            b.Built? ==> Remembers(yard.subtrees, b.yard.subtrees)
    decreases MAX_SUBTREE_DEPTH - |stack|, es, 0
  {
    if es == [] {
    } else {
      BuildRemembers(site, es[0], path, stack, yard);
      var first := BuildNode(site, es[0], path, stack, yard);
      if first.Built? {
        AllBuildsRemember(site, es[1..], path, stack, first.yard);
      }
    }
  }

  // --------------------------------------------------------------------------------------- ids

  ghost predicate AllSpace(s: string) {
    forall i | 0 <= i < |s| :: s[i] in {' ', '\t', '\n', '\r'}
  }

  /** id is s without the white space at its ends. */
  ghost predicate Trims(s: string, id: string) {
    && (exists u, v :: AllSpace(u) && AllSpace(v) && s == u + id + v)
    && (id != "" ==> !AllSpace(id[..1]) && !AllSpace(id[|id| - 1..]))
  }

  /** The ID of a SubTree is the attribute without the white space around it. */
  lemma {:induction false} StripTrims(s: string)
    ensures Trims(s, Strip(s))
    decreases |s|
  {
    hide Trims;
    if s != "" && IsSpace(s[0]) {
      StripTrims(s[1..]);
      SpaceInFront(s, Strip(s[1..]));
    } else if s != "" && IsSpace(s[|s| - 1]) {
      StripTrims(s[..|s| - 1]);
      SpaceBehind(s, Strip(s[..|s| - 1]));
    } else {
      NothingToTrim(s);
    }
  }

  lemma SpaceInFront(s: string, id: string)
    requires s != "" && IsSpace(s[0]) && Trims(s[1..], id)
    ensures Trims(s, id)
  {
    var u, v :| AllSpace(u) && AllSpace(v) && s[1..] == u + id + v;
    assert s == ([s[0]] + u) + id + v && AllSpace([s[0]] + u);
  }

  lemma SpaceBehind(s: string, id: string)
    requires s != "" && IsSpace(s[|s| - 1]) && Trims(s[..|s| - 1], id)
    ensures Trims(s, id)
  {
    var u, v :| AllSpace(u) && AllSpace(v) && s[..|s| - 1] == u + id + v;
    assert s == u + id + (v + [s[|s| - 1]]) && AllSpace(v + [s[|s| - 1]]);
  }

  lemma NothingToTrim(s: string)
    requires s != "" ==> !IsSpace(s[0]) && !IsSpace(s[|s| - 1])
    ensures Trims(s, s)
  {
    assert AllSpace("") && s == "" + s + "";
    if s != "" {
      assert s[..1][0] == s[0] && s[|s| - 1..][0] == s[|s| - 1];
    }
  }

  // ------------------------------------------------------------------------------------- paths

  /** The path of everything that a walk finds below an element begins with the path of the element. */
  ghost predicate FoundBelow(before: seq<Problem>, after: seq<Problem>, path: string) {
    before <= after && forall i | |before| <= i < |after| :: path <= after[i].path
  }

  lemma FoundBoth(a: seq<Problem>, b: seq<Problem>, c: seq<Problem>, path: string, deeper: string)
    requires FoundBelow(a, b, path) && FoundBelow(b, c, deeper) && path <= deeper
    ensures FoundBelow(a, c, path)
  {
  }

  lemma FoundHere(a: seq<Problem>, more: seq<Problem>, path: string)
    requires forall p | p in more :: p.path == path
    ensures FoundBelow(a, a + more, path)
  {
  }

  lemma {:induction false} PathsNameTheAncestors(site: Site, strict: bool, e: Element, above: string, depth: nat,
                                                 stack: seq<string>, c: Check)
    ensures FoundBelow(c.problems, Visit(site, strict, e, above, depth, stack, c).problems, Extend(above, e))
    decreases MAX_SUBTREE_DEPTH - |stack|, e, 2
  {
    hide AfterLookup, SourceOf, ConditionWarnings, NodeProblems, Extend, Refused, FoundBelow, VisitAll;
    var path := Extend(above, e);
    var c1 := c.(count := c.count + 1);
    if c1.count > MAX_TREE_NODES || depth > MAX_TREE_DEPTH {
      FoundHere(c.problems, [], path);
      assert c.problems + [] == c.problems;
      FoundHere(c.problems, [Error(TooManyNodes, path)], path);
      FoundHere(c.problems, [Error(TooDeep, path)], path);
    } else {
      var c2 := c1.(problems := c1.problems + ConditionWarnings(site, e, path, 0));
      ConditionWarningsTell(site, e, path, "");
      FoundHere(c.problems, ConditionWarnings(site, e, path, 0), path);
      var r := Visit(site, strict, e, above, depth, stack, c);
      if e.tag == "SubTree" {
        PathsOfSubtree(site, strict, e, path, depth, stack, c2, r);
      } else {
        PathsOfNode(site, strict, e, path, depth, stack, c2, r);
      }
      FoundBoth(c.problems, c2.problems, r.problems, path, path);
    }
  }

  lemma {:induction false} PathsOfSubtree(site: Site, strict: bool, e: Element, path: string, depth: nat, stack: seq<string>,
                                          c: Check, r: Check)
    requires var c3 := c.(subtrees := AfterLookup(site, strict, e, stack, c.subtrees));
             match SubtreeCause(site, strict, e, stack, c.subtrees)
             case Some(cause) => r == Report(c3, cause, path)
             case None =>
               var root := FindSubtree(site, c.subtrees, SubtreeId(e)).element;
               r == Visit(site, strict, root, path, depth + 1, stack + [SubtreeId(e)], c3)
    ensures FoundBelow(c.problems, r.problems, path)
    decreases MAX_SUBTREE_DEPTH - |stack|, e, 1
  {
    hide AfterLookup, SourceOf, Extend, FoundBelow, Visit, SubtreeId;
    match SubtreeCause(site, strict, e, stack, c.subtrees)
    case Some(cause) => FoundHere(c.problems, [Error(cause, path)], path);
    case None =>
      var c3 := c.(subtrees := AfterLookup(site, strict, e, stack, c.subtrees));
      var root := FindSubtree(site, c.subtrees, SubtreeId(e)).element;
      PathsNameTheAncestors(site, strict, root, path, depth + 1, stack + [SubtreeId(e)], c3);
      PathsGrow(path, root);
      Deeper(c.problems, r.problems, path, Extend(path, root));
  }

  lemma {:induction false} PathsOfNode(site: Site, strict: bool, e: Element, path: string, depth: nat, stack: seq<string>,
                                       c: Check, r: Check)
    requires var c3 := c.(problems := c.problems + NodeProblems(site, e, path));
             var c4 := VisitAll(site, strict, e.children, path, depth + 1, stack, c3);
             r == if strict && Refused(site, e) then Report(c4, BuilderFailed, path) else c4
    ensures FoundBelow(c.problems, r.problems, path)
    decreases MAX_SUBTREE_DEPTH - |stack|, e, 1
  {
    hide NodeProblems, Extend, Refused, FoundBelow, VisitAll;
    NodeProblemsAreHere(site, e, path);
    FoundHere(c.problems, NodeProblems(site, e, path), path);
    var c3 := c.(problems := c.problems + NodeProblems(site, e, path));
    AllPathsNameTheAncestors(site, strict, e.children, path, depth + 1, stack, c3);
    var c4 := VisitAll(site, strict, e.children, path, depth + 1, stack, c3);
    FoundBoth(c.problems, c3.problems, c4.problems, path, path);
    FoundHere(c4.problems, [Error(BuilderFailed, path)], path);
    FoundBoth(c.problems, c4.problems, c4.problems + [Error(BuilderFailed, path)], path, path);
  }

  lemma PathsGrow(above: string, e: Element)
    ensures above <= Extend(above, e)
  {
  }

  lemma NodeProblemsAreHere(site: Site, e: Element, path: string)
    ensures forall p | p in NodeProblems(site, e, path) :: p.path == path
  {
    hide FixedKind, Strip, Attr, Registered, ArityProblem, Limits;
  }

  lemma {:induction false} AllPathsNameTheAncestors(site: Site, strict: bool, es: seq<Element>, path: string, depth: nat,
                                                    stack: seq<string>, c: Check)
    ensures FoundBelow(c.problems, VisitAll(site, strict, es, path, depth, stack, c).problems, path)
    decreases MAX_SUBTREE_DEPTH - |stack|, es, 0
  {
    hide FoundBelow, Extend, Visit;
    if es == [] {
      FoundHere(c.problems, [], path);
      assert c.problems + [] == c.problems;
    } else {
      PathsNameTheAncestors(site, strict, es[0], path, depth, stack, c);
      var c1 := Visit(site, strict, es[0], path, depth, stack, c);
      AllPathsNameTheAncestors(site, strict, es[1..], path, depth, stack, c1);
      PathsGrow(path, es[0]);
      Deeper(c.problems, c1.problems, path, Extend(path, es[0]));
      FoundBoth(c.problems, c1.problems, VisitAll(site, strict, es, path, depth, stack, c).problems, path, path);
    }
  }

  lemma Deeper(a: seq<Problem>, b: seq<Problem>, path: string, deeper: string)
    requires FoundBelow(a, b, deeper) && path <= deeper
    ensures FoundBelow(a, b, path)
  {
  }
}
