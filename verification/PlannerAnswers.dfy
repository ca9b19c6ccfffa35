/** What the planner's edits and answers are, in terms of the nodes, edges and requests themselves. */
module PlannerAnswers {
  import opened Wrappers
  import opened Names
  import opened Collections
  import opened Model
  import opened Planner
  import Compiler
  import CompilerAnswers

  // ----- one edit

  /** What passes, in the same order and as often. */
  ghost function Filtered<T>(keep: T -> bool, all: seq<T>): seq<T> {
    if all == [] then [] else if keep(all[0]) then [all[0]] + Filtered(keep, all[1..]) else Filtered(keep, all[1..])
  }

  lemma {:induction false} OtherNodesKept(nodes: seq<Node>, name: string)
    ensures OtherNodes(nodes, name) == Filtered((n: Node) => n.name != name, nodes)
  {
    if nodes != [] {
      OtherNodesKept(nodes[1..], name);
    }
  }

  lemma {:induction false} DetachedKept(edges: seq<Edge>, name: string)
    ensures DetachedEdges(edges, name) == Filtered((e: Edge) => e.from != name && e.to != name, edges)
  {
    if edges != [] {
      DetachedKept(edges[1..], name);
    }
  }

  lemma {:induction false} OtherEdgesKept(edges: seq<Edge>, from: string, to: string)
    ensures OtherEdges(edges, (from, to)) == Filtered((e: Edge) => e.from != from || e.to != to, edges)
  {
    if edges != [] {
      OtherEdgesKept(edges[1..], from, to);
    }
  }

  /** A node edit keeps the nodes of other names in order. Unless it deletes, the given node follows, with an empty task
      if none is given; if it deletes, only the edges elsewhere are kept. */
  lemma NodeEditIs(g: Graph, e: NodeEdit)
    ensures var others := Filtered((n: Node) => n.name != e.name, g.nodes);
      AfterNode(g, e) ==
        if e.delete then Graph(g.goal, others, Filtered((f: Edge) => f.from != e.name && f.to != e.name, g.edges))
        else Graph(g.goal, others + [Node(e.name, if e.task.Some? then e.task.value else "")], g.edges)
  {
    OtherNodesKept(g.nodes, e.name);
    DetachedKept(g.edges, e.name);
  }

  /** An edge edit keeps the edges between other ends in order; unless it deletes, the given edge follows. */
  lemma EdgeEditIs(g: Graph, e: EdgeEdit)
    ensures var others := Filtered((f: Edge) => f.from != e.from || f.to != e.to, g.edges);
      AfterEdge(g, e) == Graph(g.goal, g.nodes, if e.delete then others else others + [Edge(e.from, e.to, e.feedback)])
  {
    OtherEdgesKept(g.edges, e.from, e.to);
    var others := OtherEdges(g.edges, Pair(e));
    assert others + [] == others;
  }

  // ----- a batch

  /** No two edits have the same target. */
  ghost predicate TargetsDiffer(request: Request) {
    match request
    case NodeEdits(edits) => forall i, j :: 0 <= i < j < |edits| ==> edits[i].name != edits[j].name
    case EdgeEdits(edits) => forall i, j :: 0 <= i < j < |edits| ==> edits[i].from != edits[j].from || edits[i].to != edits[j].to
  }

  lemma TargetsDifferIff(request: Request)
    ensures DistinctTargets(request) <==> TargetsDiffer(request)
  {
    match request
    case NodeEdits(edits) =>
      assert forall i :: 0 <= i < |edits| ==> NodeTargets(edits)[i] == edits[i].name;
    case EdgeEdits(edits) =>
      assert forall i :: 0 <= i < |edits| ==> EdgeTargets(edits)[i] == (edits[i].from, edits[i].to);
  }

  /** A batch of node edits with different targets: what it names is replaced, created or deleted, the rest stays; the
      edges of a deleted node go. */
  lemma NodeBatchIs(g: Graph, edits: seq<NodeEdit>, n: Node, f: Edge)
    requires TargetsDiffer(NodeEdits(edits))
    ensures n in AfterNodes(g, edits).nodes <==>
            || (n in g.nodes && forall e :: e in edits ==> e.name != n.name)
            || exists e :: e in edits && !e.delete && e.name == n.name && (if e.task.Some? then e.task.value else "") == n.task
    ensures f in AfterNodes(g, edits).edges <==>
            f in g.edges && forall e :: e in edits && e.delete ==> e.name != f.from && e.name != f.to
  {
    TargetsDifferIff(NodeEdits(edits));
    NodeBatch(g, edits);
    assert Creates(edits, n) <==>
      exists e :: e in edits && !e.delete && e.name == n.name && (if e.task.Some? then e.task.value else "") == n.task;
  }

  /** A batch of edge edits with different targets. */
  lemma EdgeBatchIs(g: Graph, edits: seq<EdgeEdit>, f: Edge)
    requires TargetsDiffer(EdgeEdits(edits))
    ensures AfterEdges(g, edits).nodes == g.nodes
    ensures f in AfterEdges(g, edits).edges <==>
            || (f in g.edges && forall e :: e in edits ==> e.from != f.from || e.to != f.to)
            || exists e :: e in edits && !e.delete && e.from == f.from && e.to == f.to && e.feedback == f.feedback
  {
    TargetsDifferIff(EdgeEdits(edits));
    EdgeBatch(g, edits);
    assert Rewires(edits, (f.from, f.to)) <==> exists e :: e in edits && e.from == f.from && e.to == f.to;
    assert Connects(edits, f) <==>
      exists e :: e in edits && !e.delete && e.from == f.from && e.to == f.to && e.feedback == f.feedback;
  }

  // ----- a call

  /** Nothing is wrong with the graph, so that it can be compiled. */
  ghost predicate Compiles(fold: Compiler.Fold, g: Graph) {
    && !CompilerAnswers.AnyStructural(fold, g, false) && !CompilerAnswers.HasCycle(g)
    && !CompilerAnswers.AnyUnordered(g) && !CompilerAnswers.AnyRedundant(g)
  }

  lemma AcceptedIff(fold: Compiler.Fold, g: Graph, r: Result<Compiler.Plan, seq<Compiler.Diagnostic>>)
    requires Compiler.Answers(fold, g, false, true, r)
    ensures r.Ok? <==> Compiles(fold, g)
    ensures Accepted(fold, g) <==> Compiles(fold, g)
  {
    CompilerAnswers.ReportIff(fold, g, false, true, r, Compiler.EmptyGraph);
    AnswerDecides(fold, g, r);
  }

  ghost predicate Lost(g: Graph, name: string) {
    forall n :: n in g.nodes ==> n.name != name
  }

  lemma LostIff(g: Graph, name: string)
    ensures Lost(g, name) <==> name !in NodeNames(g)
  {}

  ghost predicate MayCommit(fold: Compiler.Fold, request: Request, unremovable: seq<string>, compiler: CompilerRun, g: Graph) {
    && compiler == Answered && TargetsDiffer(request) && Compiles(fold, g)
    && forall name :: name in unremovable ==> !Lost(g, name)
  }

  lemma AcceptedMeans(fold: Compiler.Fold, g: Graph)
    requires Accepted(fold, g) || exists errors :: Compiler.Answers(fold, g, false, true, Err(errors))
    ensures Accepted(fold, g) <==> Compiles(fold, g)
  {
    if Accepted(fold, g) {
      var plan :| Compiler.Answers(fold, g, false, true, Ok(plan));
      AcceptedIff(fold, g, Ok(plan));
    } else {
      var errors :| Compiler.Answers(fold, g, false, true, Err(errors));
      AcceptedIff(fold, g, Err(errors));
    }
  }

  lemma NoneLostIff(g: Graph, unremovable: seq<string>)
    ensures (forall name :: name in unremovable ==> name in NodeNames(g)) <==> forall name :: name in unremovable ==> !Lost(g, name)
  {
    forall name
      ensures Lost(g, name) <==> name !in NodeNames(g)
    {
      LostIff(g, name);
    }
  }

  lemma CommittableMeans(fold: Compiler.Fold, saved: Graph, request: Request, unremovable: seq<string>, g: Graph)
    requires g == Candidate(saved, request)
    requires DistinctTargets(request) ==> (Accepted(fold, g) <==> Compiles(fold, g))
    ensures Committable(fold, saved, request, unremovable) <==> MayCommit(fold, request, unremovable, Answered, g)
  {
    TargetsDifferIff(request);
    NoneLostIff(g, unremovable);
  }

  lemma MayCommitIff(fold: Compiler.Fold, saved: Graph, request: Request, unremovable: seq<string>, compiler: CompilerRun,
                     saved': Graph, response: Response)
    requires Mutates(fold, saved, request, unremovable, compiler, saved', response)
    ensures response.Applied? <==> MayCommit(fold, request, unremovable, compiler, Candidate(saved, request))
  {
    if compiler == Answered {
      var g := Candidate(saved, request);
      if DistinctTargets(request) {
        AcceptedMeans(fold, g);
      }
      CommittableMeans(fold, saved, request, unremovable, g);
    }
  }

  /** A call changes the graph exactly when the compiler process answered, the targets differ, and the edited graph
      compiles and has lost no unremovable node. Then it is saved, and reported with the roots unless these are the
      first nodes of an empty graph. Otherwise it is as it was. */
  lemma MutateIs(fold: Compiler.Fold, saved: Graph, request: Request, unremovable: seq<string>, compiler: CompilerRun,
                 saved': Graph, response: Response)
    requires Mutates(fold, saved, request, unremovable, compiler, saved', response)
    ensures var g := Candidate(saved, request);
      && (response.Applied? <==> MayCommit(fold, request, unremovable, compiler, g))
      && saved' == (if response.Applied? then g else saved)
      && response.topology == TopologyOf(saved', |saved'.edges|)
      && (response.Applied? ==>
           && (response.rootNodes == None <==>
                request.NodeEdits? && saved.nodes == [] && saved.edges == [] && g.nodes != [])
           && (response.rootNodes.Some? ==> AreRoots(g, response.rootNodes.value))
           && forall w :: w in response.warnings <==> CompilerAnswers.IsWarning(g, w))
  {
    var g := Candidate(saved, request);
    MayCommitIff(fold, saved, request, unremovable, compiler, saved', response);
    if response.Applied? {
      var plan :| Compiler.Answers(fold, g, false, true, Ok(plan)) && response ==
        Applied(if InitialNodeBatch(saved, request, g) then None else Some(plan.roots), TopologyOf(g, |g.edges|), plan.warnings);
      RootsOfPlan(fold, g, plan);
    }
  }

  /** In order, the nodes no dependency leads to. */
  ghost predicate AreRoots(g: Graph, roots: seq<string>) {
    && Ascending(roots)
    && forall v :: v in roots <==> v in NodeNames(g) && forall e :: e in g.edges && !e.feedback ==> e.to != v
  }

  lemma RootsOfPlan(fold: Compiler.Fold, g: Graph, plan: Compiler.Plan)
    requires Compiler.Answers(fold, g, false, true, Ok(plan))
    ensures AreRoots(g, plan.roots) && forall w :: w in plan.warnings <==> CompilerAnswers.IsWarning(g, w)
  {
    CompilerAnswers.PlanEnds(fold, g, false, true, plan, "");
    forall v
      ensures v in plan.roots <==> v in NodeNames(g) && forall e :: e in g.edges && !e.feedback ==> e.to != v
    {
      CompilerAnswers.PlanEnds(fold, g, false, true, plan, v);
    }
    forall w
      ensures w in plan.warnings <==> CompilerAnswers.IsWarning(g, w)
    {
      CompilerAnswers.WarningIff(fold, g, false, true, plan, w);
    }
  }

  // ----- the codes of a rejection

  /** The positions whose target was given before. */
  ghost function RepeatedAt(request: Request): set<nat> {
    match request
    case NodeEdits(edits) => set k: nat | k < |edits| && exists j :: 0 <= j < k && edits[j].name == edits[k].name
    case EdgeEdits(edits) =>
      set k: nat | k < |edits| && exists j :: 0 <= j < k && edits[j].from == edits[k].from && edits[j].to == edits[k].to
  }

  lemma RepeatedAtIs(request: Request)
    ensures RepeatCount(request) == |RepeatedAt(request)|
  {
    match request
    case NodeEdits(edits) =>
      var targets := NodeTargets(edits);
      assert forall j :: 0 <= j < |edits| ==> targets[j] == edits[j].name;
      forall k: nat | k < |edits|
        ensures targets[k] in targets[..k] <==> exists j :: 0 <= j < k && edits[j].name == edits[k].name
      {
        InFront(targets, k);
      }
      assert Repetitions(targets, |edits|) == RepeatedAt(request);
    case EdgeEdits(edits) =>
      var targets := EdgeTargets(edits);
      assert forall j :: 0 <= j < |edits| ==> targets[j] == (edits[j].from, edits[j].to);
      forall k: nat | k < |edits|
        ensures targets[k] in targets[..k] <==> exists j :: 0 <= j < k && edits[j].from == edits[k].from && edits[j].to == edits[k].to
      {
        InFront(targets, k);
      }
      assert Repetitions(targets, |edits|) == RepeatedAt(request);
  }

  lemma InFront<T>(s: seq<T>, k: nat)
    requires k < |s|
    ensures s[k] in s[..k] <==> exists j :: 0 <= j < k && s[j] == s[k]
  {
    if j :| 0 <= j < k && s[j] == s[k] {
      assert s[..k][j] == s[k];
    }
  }

  ghost predicate AllAre(codes: seq<string>, code: string, n: nat) {
    |codes| == n && forall i :: 0 <= i < n ==> codes[i] == code
  }

  lemma {:induction false} RemovedKept(g: Graph, unremovable: seq<string>)
    ensures Removed(g, unremovable) == Filtered((name: string) => name !in NodeNames(g), unremovable)
  {
    if unremovable != [] {
      RemovedKept(g, unremovable[1..]);
    }
  }

  ghost predicate CompilerCodes(fold: Compiler.Fold, g: Graph, codes: seq<string>) {
    exists errors :: Compiler.Answers(fold, g, false, true, Err(errors)) && |codes| == |errors|
                     && forall i :: 0 <= i < |errors| ==> codes[i] == Compiler.Code(errors[i])
  }

  lemma FailureCodes(fold: Compiler.Fold, g: Graph, unremovable: seq<string>, codes: seq<string>)
    requires FailsWith(fold, g, unremovable, codes)
    ensures if Compiles(fold, g) then AllAre(codes, "E210", |Filtered((name: string) => name !in NodeNames(g), unremovable)|)
            else CompilerCodes(fold, g, codes)
  {
    AcceptedMeans(fold, g);
    RemovedKept(g, unremovable);
  }

  /** A rejection carries the codes of the first stage that fails: one for each repeated target; the compiler process;
      what the compiler refuses; one for each unremovable name that is lost. */
  lemma RejectionCodes(fold: Compiler.Fold, saved: Graph, request: Request, unremovable: seq<string>, compiler: CompilerRun,
                       saved': Graph, response: Response)
    requires Mutates(fold, saved, request, unremovable, compiler, saved', response) && response.Rejected?
    ensures var g := Candidate(saved, request);
      if !TargetsDiffer(request) then AllAre(response.codes, "duplicate-target", |RepeatedAt(request)|)
      else if compiler == Unavailable then response.codes == ["compiler-unavailable"]
      else if compiler == Unreadable then response.codes == ["compiler-response"]
      else if Compiles(fold, g) then
        AllAre(response.codes, "E210", |Filtered((name: string) => name !in NodeNames(g), unremovable)|)
      else CompilerCodes(fold, g, response.codes)
  {
    TargetsDifferIff(request);
    RepeatedAtIs(request);
    if DistinctTargets(request) && compiler == Answered {
      FailureCodes(fold, Candidate(saved, request), unremovable, response.codes);
    }
  }

  // ----- the topology

  ghost predicate KnownEnds(g: Graph, e: Edge) {
    e.from in NodeNames(g) && e.to in NodeNames(g)
  }

  /** Edge `i` cannot be shown in the two tables: an end is unknown, or its source has an earlier feedback route. */
  ghost predicate Unshown(g: Graph, i: int)
    requires 0 <= i < |g.edges|
  {
    var e := g.edges[i];
    || !KnownEnds(g, e)
    || (e.feedback && exists j :: 0 <= j < i && g.edges[j].feedback && g.edges[j].from == e.from && KnownEnds(g, g.edges[j]))
  }

  ghost predicate Routed(g: Graph, n: int, source: string)
    requires n <= |g.edges|
  {
    exists j :: 0 <= j < n && g.edges[j].feedback && g.edges[j].from == source && KnownEnds(g, g.edges[j])
  }

  lemma {:induction false} TopologyKeys(g: Graph, n: nat)
    requires n <= |g.edges|
    ensures TopologyOf(g, n).directDependencies.Keys == NodeNames(g)
    ensures forall s :: s in TopologyOf(g, n).feedbackTo <==> Routed(g, n, s)
  {
    if n > 0 {
      TopologyKeys(g, n - 1);
      var t, e := TopologyOf(g, n - 1), g.edges[n - 1];
      assert Add(t, e).directDependencies.Keys == NodeNames(g);
      forall s
        ensures s in Add(t, e).feedbackTo <==> Routed(g, n, s)
      {
        assert Routed(g, n, s) <==> Routed(g, n - 1, s) || (e.feedback && e.from == s && KnownEnds(g, e));
      }
    }
  }

  ghost predicate UnshownAt(g: Graph, listed: seq<Edge>, at: seq<int>, n: int)
    requires n <= |g.edges|
  {
    && |at| == |listed|
    && (forall i :: 0 <= i < |at| ==> 0 <= at[i] < n && listed[i] == g.edges[at[i]] && Unshown(g, at[i]))
    && (forall i, j :: 0 <= i < j < |at| ==> at[i] < at[j])
    && (forall k :: 0 <= k < n && Unshown(g, k) ==> k in at)
  }

  /** What one edge adds to the tables. */
  lemma Adds(g: Graph, t: Topology, n: nat)
    requires n < |g.edges| && t.directDependencies.Keys == NodeNames(g)
    requires g.edges[n].from in t.feedbackTo <==> Routed(g, n, g.edges[n].from)
    ensures var e, t' := g.edges[n], Add(t, g.edges[n]);
      if Unshown(g, n) then t' == t.(unrepresented := t.unrepresented + [e])
      else t'.unrepresented == t.unrepresented
           && t'.feedbackTo == if e.feedback then t.feedbackTo[e.from := e.to] else t.feedbackTo
  {
    assert Unshown(g, n) <==> !KnownEnds(g, g.edges[n]) || (g.edges[n].feedback && Routed(g, n, g.edges[n].from));
  }

  lemma UnshownNext(g: Graph, listed: seq<Edge>, at: seq<int>, n: nat)
    requires n < |g.edges| && UnshownAt(g, listed, at, n)
    ensures if Unshown(g, n) then UnshownAt(g, listed + [g.edges[n]], at + [n], n + 1) else UnshownAt(g, listed, at, n + 1)
  {}

  lemma LeftOverNext(g: Graph, t: Topology, at: seq<int>, n: nat) returns (more: seq<int>)
    requires n < |g.edges| && t.directDependencies.Keys == NodeNames(g)
    requires g.edges[n].from in t.feedbackTo <==> Routed(g, n, g.edges[n].from)
    requires UnshownAt(g, t.unrepresented, at, n)
    ensures UnshownAt(g, Add(t, g.edges[n]).unrepresented, more, n + 1)
  {
    Adds(g, t, n);
    UnshownNext(g, t.unrepresented, at, n);
    more := if Unshown(g, n) then at + [n] else at;
  }

  /** What is left over is exactly the edges that cannot be shown, in order. */
  lemma {:induction false} LeftOver(g: Graph, n: nat) returns (t: Topology, at: seq<int>)
    requires n <= |g.edges|
    ensures t == TopologyOf(g, n) && UnshownAt(g, t.unrepresented, at, n)
  {
    t, at := TopologyOf(g, 0), [];
    if n > 0 {
      t, at := LeftOver(g, n - 1);
      TopologyKeys(g, n - 1);
      at := LeftOverNext(g, t, at, n - 1);
      t := Add(t, g.edges[n - 1]);
    }
  }

  ghost predicate SourcesAt(g: Graph, v: string, listed: seq<string>, at: seq<int>, n: int)
    requires n <= |g.edges|
  {
    && |at| == |listed|
    && (forall i :: 0 <= i < |at| ==>
         0 <= at[i] < n && g.edges[at[i]] == Edge(listed[i], v, false) && listed[i] in NodeNames(g))
    && (forall i, j :: 0 <= i < j < |at| ==> at[i] < at[j])
    && (forall k :: 0 <= k < n && !g.edges[k].feedback && g.edges[k].to == v && g.edges[k].from in NodeNames(g) ==> k in at)
  }

  ghost predicate Feeds(g: Graph, e: Edge, v: string) {
    !e.feedback && e.to == v && e.from in NodeNames(g)
  }

  lemma SourcesNext(g: Graph, v: string, listed: seq<string>, at: seq<int>, n: nat)
    requires n < |g.edges| && SourcesAt(g, v, listed, at, n)
    ensures if Feeds(g, g.edges[n], v) then SourcesAt(g, v, listed + [g.edges[n].from], at + [n], n + 1)
            else SourcesAt(g, v, listed, at, n + 1)
  {}

  lemma AddsSource(g: Graph, t: Topology, e: Edge, v: string)
    requires t.directDependencies.Keys == NodeNames(g) && v in NodeNames(g)
    ensures Add(t, e).directDependencies.Keys == NodeNames(g)
    ensures Add(t, e).directDependencies[v] ==
            if Feeds(g, e, v) then t.directDependencies[v] + [e.from] else t.directDependencies[v]
  {}

  /** The table has a row for every node, and that of `v` lists these sources. */
  ghost predicate RowsListed(g: Graph, t: Topology, v: string, at: seq<int>, n: nat)
    requires n <= |g.edges|
  {
    t.directDependencies.Keys == NodeNames(g) && v in NodeNames(g) && SourcesAt(g, v, t.directDependencies[v], at, n)
  }

  lemma RowsNext(g: Graph, t: Topology, v: string, at: seq<int>, n: nat) returns (more: seq<int>)
    requires n < |g.edges| && RowsListed(g, t, v, at, n)
    ensures RowsListed(g, Add(t, g.edges[n]), v, more, n + 1)
  {
    AddsSource(g, t, g.edges[n], v);
    SourcesNext(g, v, t.directDependencies[v], at, n);
    more := if Feeds(g, g.edges[n], v) then at + [n] else at;
  }

  lemma NoRows(g: Graph, v: string)
    requires v in NodeNames(g)
    ensures RowsListed(g, TopologyOf(g, 0), v, [], 0)
  {}

  lemma RowsGrow(g: Graph, v: string, at: seq<int>, n: nat) returns (more: seq<int>)
    requires n < |g.edges| && RowsListed(g, TopologyOf(g, n), v, at, n)
    ensures RowsListed(g, TopologyOf(g, n + 1), v, more, n + 1)
  {
    more := RowsNext(g, TopologyOf(g, n), v, at, n);
    assert TopologyOf(g, n + 1) == Add(TopologyOf(g, n), g.edges[n]);
  }

  /** The direct dependencies of a node are the known sources of its dependency edges, in the order of the graph. */
  lemma {:induction false} DirectDependencies(g: Graph, n: nat, v: string) returns (at: seq<int>)
    requires n <= |g.edges| && v in NodeNames(g)
    ensures RowsListed(g, TopologyOf(g, n), v, at, n)
  {
    if n == 0 {
      NoRows(g, v);
      at := [];
    } else {
      at := DirectDependencies(g, n - 1, v);
      at := RowsGrow(g, v, at, n - 1);
    }
  }

  ghost predicate FirstRoute(g: Graph, n: int, i: int, source: string, target: string)
    requires n <= |g.edges|
  {
    0 <= i < n && g.edges[i] == Edge(source, target, true) && KnownEnds(g, g.edges[i]) && !Routed(g, i, source)
  }

  /** A source leads back to the target of its first feedback route between known nodes. */
  lemma {:induction false} FeedbackTo(g: Graph, n: nat, source: string) returns (i: int)
    requires n <= |g.edges| && source in TopologyOf(g, n).feedbackTo
    ensures FirstRoute(g, n, i, source, TopologyOf(g, n).feedbackTo[source])
  {
    TopologyKeys(g, n - 1);
    Adds(g, TopologyOf(g, n - 1), n - 1);
    if source in TopologyOf(g, n - 1).feedbackTo {
      i := FeedbackTo(g, n - 1, source);
      RouteStays(g, n - 1, i, source, TopologyOf(g, n - 1).feedbackTo[source]);
    } else {
      i := n - 1;
    }
  }

  /** Once a source has a route, later ones are not shown. */
  lemma RouteStays(g: Graph, n: nat, i: int, source: string, target: string)
    requires n < |g.edges| && FirstRoute(g, n, i, source, target)
    ensures FirstRoute(g, n + 1, i, source, target)
    ensures g.edges[n].feedback && g.edges[n].from == source ==> Unshown(g, n)
  {}
}
