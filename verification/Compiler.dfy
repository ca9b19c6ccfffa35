/** The execution-graph compiler: diagnostics, layering, routes, redundancy and warnings. */
module Compiler {
  import opened Wrappers
  import opened Names
  import opened Whitespace
  import opened Paths
  import Collections
  import Text
  import opened Model
  import Downstream
  import AlternatePath
  import Layering

  /** Each constructor carries the nodes and edges its message reports. */
  datatype Diagnostic =
    | EmptyGraph
    | EmptyName
    | DuplicateName(name: string)
    | CaseCollision(previous: string, name: string)
    | EmptyTask(name: string)
    | UnknownEndpoint(edge: Edge, missing: seq<string>)
    | SelfEdge(name: string)
    | DuplicateEdge(edge: Edge)
    | ManyFeedbackTargets(name: string, targets: seq<string>)
    | Cycle(blocked: seq<string>, edges: seq<Arc>)
    | UnorderedFeedback(edge: Edge, reachable: seq<string>)
    | RedundantDependency(arc: Arc, path: seq<string>)

  function Code(d: Diagnostic): string {
    match d
    case EmptyGraph => "E001"
    case EmptyName => "E201"
    case DuplicateName(_) => "E202"
    case CaseCollision(_, _) => "E202"
    case EmptyTask(_) => "E203"
    case UnknownEndpoint(_, _) => "E204"
    case SelfEdge(_) => "E205"
    case DuplicateEdge(_) => "E206"
    case ManyFeedbackTargets(_, _) => "E208"
    case Cycle(_, _) => "E101"
    case UnorderedFeedback(_, _) => "E207"
    case RedundantDependency(_, _) => "E209"
  }

  datatype Warning =
    | IdenticalTasks(names: seq<string>)
    | UnroutedMarker(name: string)
    | Invalidation(source: string, target: string, invalidated: seq<string>)

  datatype Plan = Plan(batches: seq<seq<string>>, roots: seq<string>, terminals: seq<string>, warnings: seq<Warning>)

  /** `str::to_lowercase`, which this model leaves uninterpreted. */
  type Fold = string -> string

  // ----- what the checks on nodes and edges report

  ghost predicate NamedBefore(nodes: seq<Node>, i: nat, name: string)
    requires i <= |nodes|
  {
    exists j :: 0 <= j < i && nodes[j].name == name
  }

  /** The latest first occurrence of a name with this folding, among the first `i` nodes. */
  ghost function LastFolded(fold: Fold, nodes: seq<Node>, i: nat, folded: string): Option<string>
    requires i <= |nodes|
  {
    if i == 0 then None
    else if fold(nodes[i - 1].name) == folded && !NamedBefore(nodes, i - 1, nodes[i - 1].name) then
      Some(nodes[i - 1].name)
    else LastFolded(fold, nodes, i - 1, folded)
  }

  ghost function NodeErrors(fold: Fold, nodes: seq<Node>, i: nat): seq<Diagnostic>
    requires i < |nodes|
  {
    var n := nodes[i];
    (if n.name == "" then [EmptyName] else [])
    + (if NamedBefore(nodes, i, n.name) then [DuplicateName(n.name)]
       else match LastFolded(fold, nodes, i, fold(n.name))
         case None => []
         case Some(previous) => [CaseCollision(previous, n.name)])
    + (if Blank(n.task) then [EmptyTask(n.name)] else [])
  }

  ghost function AllNodeErrors(fold: Fold, nodes: seq<Node>, n: nat): seq<Diagnostic>
    requires n <= |nodes|
  {
    if n == 0 then [] else AllNodeErrors(fold, nodes, n - 1) + NodeErrors(fold, nodes, n - 1)
  }

  ghost predicate PairedBefore(edges: seq<Edge>, i: nat, e: Edge)
    requires i <= |edges|
  {
    exists j :: 0 <= j < i && edges[j].from == e.from && edges[j].to == e.to
  }

  function Missing(names: set<string>, e: Edge): seq<string> {
    (if e.from in names then [] else [e.from]) + (if e.to in names then [] else [e.to])
  }

  ghost function EdgeErrors(names: set<string>, edges: seq<Edge>, i: nat): seq<Diagnostic>
    requires i < |edges|
  {
    var e := edges[i];
    (if e.from !in names || e.to !in names then [UnknownEndpoint(e, Missing(names, e))] else [])
    + (if e.from == e.to then [SelfEdge(e.from)] else [])
    + (if PairedBefore(edges, i, e) then [DuplicateEdge(e)] else [])
  }

  ghost function AllEdgeErrors(names: set<string>, edges: seq<Edge>, n: nat): seq<Diagnostic>
    requires n <= |edges|
  {
    if n == 0 then [] else AllEdgeErrors(names, edges, n - 1) + EdgeErrors(names, edges, n - 1)
  }

  function FeedbackSources(edges: seq<Edge>): set<string> {
    set e | e in edges && e.feedback :: e.from
  }

  function FeedbackTargets(edges: seq<Edge>, source: string): set<string> {
    set e | e in edges && e.feedback && e.from == source :: e.to
  }

  function TargetErrors(edges: seq<Edge>, sources: seq<string>, n: nat): seq<Diagnostic>
    requires n <= |sources|
  {
    if n == 0 then []
    else
      var targets := FeedbackTargets(edges, sources[n - 1]);
      TargetErrors(edges, sources, n - 1)
      + (if |targets| > 1 then [ManyFeedbackTargets(sources[n - 1], Sorted(targets))] else [])
  }

  /** One E208 for every feedback source with several targets, in the order of the sources. */
  function AllTargetErrors(edges: seq<Edge>): seq<Diagnostic> {
    var sources := Sorted(FeedbackSources(edges));
    TargetErrors(edges, sources, |sources|)
  }

  /** Everything reported before the graph is ordered. */
  ghost function StructuralErrors(fold: Fold, g: Graph, finalCheck: bool): seq<Diagnostic> {
    (if finalCheck && g.nodes == [] then [EmptyGraph] else [])
    + AllNodeErrors(fold, g.nodes, |g.nodes|)
    + AllEdgeErrors(NodeNames(g), g.edges, |g.edges|)
    + AllTargetErrors(g.edges)
  }

  // ----- what they check

  ghost predicate NodesWellFormed(fold: Fold, nodes: seq<Node>) {
    && (forall i :: 0 <= i < |nodes| ==> nodes[i].name != "" && !Blank(nodes[i].task))
    && (forall i, j :: 0 <= i < j < |nodes| ==> fold(nodes[i].name) != fold(nodes[j].name))
  }

  ghost predicate EdgesWellFormed(names: set<string>, edges: seq<Edge>) {
    && (forall i :: 0 <= i < |edges| ==> edges[i].from in names && edges[i].to in names && edges[i].from != edges[i].to)
    && (forall i, j :: 0 <= i < j < |edges| ==> (edges[i].from, edges[i].to) != (edges[j].from, edges[j].to))
  }

  ghost predicate OneTargetEach(edges: seq<Edge>) {
    forall e, f :: e in edges && f in edges && e.feedback && f.feedback && e.from == f.from ==> e.to == f.to
  }

  ghost predicate WellFormed(fold: Fold, g: Graph, finalCheck: bool) {
    && (finalCheck ==> g.nodes != [])
    && NodesWellFormed(fold, g.nodes)
    && EdgesWellFormed(NodeNames(g), g.edges)
    && OneTargetEach(g.edges)
  }

  lemma {:induction false} NodeErrorsIff(fold: Fold, nodes: seq<Node>, n: nat)
    requires n <= |nodes|
    ensures AllNodeErrors(fold, nodes, n) == [] <==> NodesWellFormed(fold, nodes[..n])
  {
    if n > 0 {
      NodeErrorsIff(fold, nodes, n - 1);
      assert nodes[..n - 1] == nodes[..n][..n - 1];
      if NodesWellFormed(fold, nodes[..n - 1]) {
        NodeErrorsStep(fold, nodes, n - 1);
      }
    }
  }

  lemma NodeErrorsStep(fold: Fold, nodes: seq<Node>, i: nat)
    requires i < |nodes| && NodesWellFormed(fold, nodes[..i])
    ensures NodeErrors(fold, nodes, i) == [] <==> NodesWellFormed(fold, nodes[..i + 1])
  {
    var n := nodes[i];
    FoldedIff(fold, nodes, i, fold(n.name));
    assert nodes[..i + 1] == nodes[..i] + [n];
    assert NodeErrors(fold, nodes, i) == [] <==>
      n.name != "" && !Blank(n.task) && !NamedBefore(nodes, i, n.name) && LastFolded(fold, nodes, i, fold(n.name)) == None;
    if NodesWellFormed(fold, nodes[..i + 1]) {
      assert nodes[..i + 1][i] == n;
      forall j | 0 <= j < i
        ensures fold(nodes[j].name) != fold(n.name)
      {
        assert nodes[..i + 1][j] == nodes[j];
      }
    }
  }

  /** A name collides exactly when some earlier name has the same folding. */
  lemma {:induction false} FoldedIff(fold: Fold, nodes: seq<Node>, i: nat, folded: string)
    requires i <= |nodes| && NodesWellFormed(fold, nodes[..i])
    ensures LastFolded(fold, nodes, i, folded).Some? <==> exists j :: 0 <= j < i && fold(nodes[j].name) == folded
  {
    if i > 0 {
      assert nodes[..i - 1] == nodes[..i][..i - 1];
      assert forall j :: 0 <= j < i ==> nodes[..i][j] == nodes[j];
      FoldedIff(fold, nodes, i - 1, folded);
    }
  }

  /** One more edge: nothing wrong with it by itself, and none before it between the same nodes. */
  lemma EdgesWellFormedNext(names: set<string>, edges: seq<Edge>, i: nat)
    requires i < |edges|
    ensures EdgesWellFormed(names, edges[..i + 1]) <==>
            && EdgesWellFormed(names, edges[..i])
            && edges[i].from in names && edges[i].to in names && edges[i].from != edges[i].to
            && !PairedBefore(edges, i, edges[i])
  {
    var rest, all := edges[..i], edges[..i + 1];
    assert all == rest + [edges[i]];
  }

  lemma EdgeErrorsStep(names: set<string>, edges: seq<Edge>, i: nat)
    requires i < |edges|
    ensures EdgeErrors(names, edges, i) == [] <==>
            && edges[i].from in names && edges[i].to in names && edges[i].from != edges[i].to
            && !PairedBefore(edges, i, edges[i])
  {}

  lemma {:induction false} EdgeErrorsIff(names: set<string>, edges: seq<Edge>, n: nat)
    requires n <= |edges|
    ensures AllEdgeErrors(names, edges, n) == [] <==> EdgesWellFormed(names, edges[..n])
  {
    if n > 0 {
      EdgeErrorsIff(names, edges, n - 1);
      EdgeErrorsStep(names, edges, n - 1);
      EdgesWellFormedNext(names, edges, n - 1);
    }
  }

  lemma {:induction false} TargetErrorsIff(edges: seq<Edge>, sources: seq<string>, n: nat)
    requires n <= |sources|
    ensures TargetErrors(edges, sources, n) == [] <==>
            forall s :: s in sources[..n] ==> |FeedbackTargets(edges, s)| <= 1
  {
    if n > 0 {
      TargetErrorsIff(edges, sources, n - 1);
      assert sources[..n] == sources[..n - 1] + [sources[n - 1]];
    }
  }

  lemma OneTargetIff(edges: seq<Edge>)
    ensures OneTargetEach(edges) <==> forall s :: s in FeedbackSources(edges) ==> |FeedbackTargets(edges, s)| <= 1
  {
    if OneTargetEach(edges) {
      forall s | s in FeedbackSources(edges)
        ensures |FeedbackTargets(edges, s)| <= 1
      {
        var e :| e in edges && e.feedback && e.from == s;
        assert FeedbackTargets(edges, s) == {e.to};
      }
    } else {
      var e, f :| e in edges && f in edges && e.feedback && f.feedback && e.from == f.from && e.to != f.to;
      assert e.to in FeedbackTargets(edges, e.from) && f.to in FeedbackTargets(edges, e.from);
      assert {e.to, f.to} <= FeedbackTargets(edges, e.from);
      Collections.SubsetSize({e.to, f.to}, FeedbackTargets(edges, e.from));
      assert e.from in FeedbackSources(edges);
    }
  }

  /** No diagnostic before ordering exactly when the graph is well formed. */
  lemma StructuralErrorsIff(fold: Fold, g: Graph, finalCheck: bool)
    ensures StructuralErrors(fold, g, finalCheck) == [] <==> WellFormed(fold, g, finalCheck)
  {
    NodeErrorsIff(fold, g.nodes, |g.nodes|);
    assert g.nodes[..|g.nodes|] == g.nodes;
    EdgeErrorsIff(NodeNames(g), g.edges, |g.edges|);
    assert g.edges[..|g.edges|] == g.edges;
    var sources := Sorted(FeedbackSources(g.edges));
    TargetErrorsIff(g.edges, sources, |sources|);
    assert sources[..|sources|] == sources;
    OneTargetIff(g.edges);
    assert forall s :: s in sources <==> s in Elements(sources);
  }

  // ----- the checks, as the compiler makes them

  ghost predicate Collected(nodes: seq<Node>, i: nat, names: set<string>)
    requires i <= |nodes|
  {
    forall name :: name in names <==> NamedBefore(nodes, i, name)
  }

  ghost predicate CollectedFolds(fold: Fold, nodes: seq<Node>, i: nat, folded: map<string, string>)
    requires i <= |nodes|
  {
    forall f :: LastFolded(fold, nodes, i, f) == if f in folded then Some(folded[f]) else None
  }

  /** What is wrong with node `i`, given the nodes before it. */
  method CheckNode(fold: Fold, nodes: seq<Node>, i: nat, names: set<string>, folded: map<string, string>)
    returns (own: seq<Diagnostic>)
    requires i < |nodes| && Collected(nodes, i, names) && CollectedFolds(fold, nodes, i, folded)
    ensures own == NodeErrors(fold, nodes, i)
  {
    var n := nodes[i];
    var f := fold(n.name);
    own := [];
    if n.name == "" {
      own := own + [EmptyName];
    }
    if n.name in names {
      own := own + [DuplicateName(n.name)];
    } else if f in folded {
      own := own + [CaseCollision(folded[f], n.name)];
    }
    if Blank(n.task) {
      own := own + [EmptyTask(n.name)];
    }
  }

  method CheckNodes(fold: Fold, nodes: seq<Node>) returns (errors: seq<Diagnostic>, names: set<string>)
    ensures errors == AllNodeErrors(fold, nodes, |nodes|)
    ensures Collected(nodes, |nodes|, names)
  {
    errors, names := [], {};
    var folded: map<string, string> := map[];
    for i := 0 to |nodes|
      invariant errors == AllNodeErrors(fold, nodes, i)
      invariant Collected(nodes, i, names) && CollectedFolds(fold, nodes, i, folded)
    {
      var own := CheckNode(fold, nodes, i, names, folded);
      errors := errors + own;
      if nodes[i].name in names {
        CollectedOld(fold, nodes, i, names, folded);
      } else {
        CollectedNew(fold, nodes, i, names, folded);
        names := names + {nodes[i].name};
        folded := folded[fold(nodes[i].name) := nodes[i].name];
      }
    }
  }

  lemma CollectedOld(fold: Fold, nodes: seq<Node>, i: nat, names: set<string>, folded: map<string, string>)
    requires i < |nodes| && nodes[i].name in names
    requires Collected(nodes, i, names) && CollectedFolds(fold, nodes, i, folded)
    ensures Collected(nodes, i + 1, names) && CollectedFolds(fold, nodes, i + 1, folded)
  {
    forall name
      ensures name in names <==> NamedBefore(nodes, i + 1, name)
    {
      assert NamedBefore(nodes, i + 1, name) <==> NamedBefore(nodes, i, name) || name == nodes[i].name;
    }
  }

  lemma CollectedNew(fold: Fold, nodes: seq<Node>, i: nat, names: set<string>, folded: map<string, string>)
    requires i < |nodes| && nodes[i].name !in names
    requires Collected(nodes, i, names) && CollectedFolds(fold, nodes, i, folded)
    ensures Collected(nodes, i + 1, names + {nodes[i].name})
    ensures CollectedFolds(fold, nodes, i + 1, folded[fold(nodes[i].name) := nodes[i].name])
  {
    forall name
      ensures name in names + {nodes[i].name} <==> NamedBefore(nodes, i + 1, name)
    {
      assert NamedBefore(nodes, i + 1, name) <==> NamedBefore(nodes, i, name) || name == nodes[i].name;
    }
  }

  lemma CollectedIsNodeNames(g: Graph, names: set<string>)
    requires Collected(g.nodes, |g.nodes|, names)
    ensures names == NodeNames(g)
  {
    forall name
      ensures name in names <==> name in NodeNames(g)
    {
      if name in names {
        var j :| 0 <= j < |g.nodes| && g.nodes[j].name == name;
        NodeNameIn(g, j);
      }
      if name in NodeNames(g) {
        var n :| n in g.nodes && n.name == name;
        var j :| 0 <= j < |g.nodes| && g.nodes[j] == n;
        assert NamedBefore(g.nodes, |g.nodes|, name);
      }
    }
  }

  ghost predicate Paired(edges: seq<Edge>, i: nat, pairs: set<Arc>)
    requires i <= |edges|
  {
    forall a :: a in pairs <==> PairedBefore(edges, i, Edge(a.0, a.1, false))
  }

  /** What is wrong with edge `i`, given the edges before it. */
  method CheckEdge(names: set<string>, edges: seq<Edge>, i: nat, pairs: set<Arc>) returns (own: seq<Diagnostic>)
    requires i < |edges| && Paired(edges, i, pairs)
    ensures own == EdgeErrors(names, edges, i)
  {
    var e := edges[i];
    own := [];
    if e.from !in names || e.to !in names {
      own := own + [UnknownEndpoint(e, Missing(names, e))];
    }
    if e.from == e.to {
      own := own + [SelfEdge(e.from)];
    }
    assert (e.from, e.to) in pairs <==> PairedBefore(edges, i, e);
    if (e.from, e.to) in pairs {
      own := own + [DuplicateEdge(e)];
    }
  }

  method CheckEdges(names: set<string>, edges: seq<Edge>) returns (errors: seq<Diagnostic>)
    ensures errors == AllEdgeErrors(names, edges, |edges|)
  {
    errors := [];
    var pairs: set<Arc> := {};
    for i := 0 to |edges|
      invariant errors == AllEdgeErrors(names, edges, i) && Paired(edges, i, pairs)
    {
      var own := CheckEdge(names, edges, i, pairs);
      errors := errors + own;
      PairedNext(edges, i, pairs);
      pairs := pairs + {(edges[i].from, edges[i].to)};
    }
  }

  lemma PairedNext(edges: seq<Edge>, i: nat, pairs: set<Arc>)
    requires i < |edges| && Paired(edges, i, pairs)
    ensures Paired(edges, i + 1, pairs + {(edges[i].from, edges[i].to)})
  {
    forall a: Arc
      ensures a in pairs + {(edges[i].from, edges[i].to)} <==> PairedBefore(edges, i + 1, Edge(a.0, a.1, false))
    {
      assert PairedBefore(edges, i + 1, Edge(a.0, a.1, false)) <==>
        PairedBefore(edges, i, Edge(a.0, a.1, false)) || a == (edges[i].from, edges[i].to);
    }
  }

  ghost predicate Gathered(edges: seq<Edge>, targets: map<string, set<string>>) {
    targets.Keys == FeedbackSources(edges) && forall s :: s in targets ==> targets[s] == FeedbackTargets(edges, s)
  }

  method GatherTargets(edges: seq<Edge>) returns (targets: map<string, set<string>>)
    ensures Gathered(edges, targets)
  {
    targets := map[];
    for i := 0 to |edges|
      invariant Gathered(edges[..i], targets)
    {
      var e := edges[i];
      GatheredNext(edges, i, targets);
      if e.feedback {
        targets := targets[e.from := (if e.from in targets then targets[e.from] else {}) + {e.to}];
      }
    }
    assert edges[..|edges|] == edges;
  }

  lemma GatheredNext(edges: seq<Edge>, i: nat, targets: map<string, set<string>>)
    requires i < |edges| && Gathered(edges[..i], targets)
    ensures var e := edges[i];
      Gathered(edges[..i + 1],
               if e.feedback then targets[e.from := (if e.from in targets then targets[e.from] else {}) + {e.to}] else targets)
  {
    var e := edges[i];
    OneMoreFeedback(edges, i);
    var targets' := if e.feedback then targets[e.from := (if e.from in targets then targets[e.from] else {}) + {e.to}] else targets;
    assert targets'.Keys == FeedbackSources(edges[..i + 1]);
  }

  method CheckFeedbackTargets(edges: seq<Edge>) returns (errors: seq<Diagnostic>)
    ensures errors == AllTargetErrors(edges)
  {
    var targets := GatherTargets(edges);
    var sources := Sorted(targets.Keys);
    errors := [];
    for i := 0 to |sources|
      invariant errors == TargetErrors(edges, sources, i)
    {
      var s := sources[i];
      assert s in Elements(sources);
      if |targets[s]| > 1 {
        errors := errors + [ManyFeedbackTargets(s, Sorted(targets[s]))];
      }
    }
  }

  lemma OneMoreFeedback(edges: seq<Edge>, i: nat)
    requires i < |edges|
    ensures var e := edges[i];
      && FeedbackSources(edges[..i + 1]) == FeedbackSources(edges[..i]) + (if e.feedback then {e.from} else {})
      && (forall s :: FeedbackTargets(edges[..i + 1], s) ==
           FeedbackTargets(edges[..i], s) + (if e.feedback && e.from == s then {e.to} else {}))
      && (forall s :: s !in FeedbackSources(edges[..i]) ==> FeedbackTargets(edges[..i], s) == {})
  {
    var e := edges[i];
    assert edges[..i + 1] == edges[..i] + [e];
    forall s
      ensures FeedbackTargets(edges[..i + 1], s) ==
        FeedbackTargets(edges[..i], s) + (if e.feedback && e.from == s then {e.to} else {})
    {
    }
  }

  // ----- after ordering: routes, redundancy, warnings

  function DependencyList(edges: seq<Edge>, n: nat): seq<Arc>
    requires n <= |edges|
  {
    if n == 0 then []
    else DependencyList(edges, n - 1) + (if edges[n - 1].feedback then [] else [(edges[n - 1].from, edges[n - 1].to)])
  }

  lemma {:induction false} DependencyListArcs(edges: seq<Edge>, n: nat)
    requires n <= |edges|
    ensures forall a :: a in DependencyList(edges, n) <==> exists i :: 0 <= i < n && edges[i] == Edge(a.0, a.1, false)
  {
    if n > 0 {
      DependencyListArcs(edges, n - 1);
    }
  }

  lemma {:induction false} DependencyListDistinct(names: set<string>, edges: seq<Edge>, n: nat)
    requires n <= |edges| && EdgesWellFormed(names, edges)
    ensures Collections.Distinct(DependencyList(edges, n))
  {
    if n > 0 {
      DependencyListDistinct(names, edges, n - 1);
      DependencyListArcs(edges, n - 1);
      assert (edges[n - 1].from, edges[n - 1].to) !in DependencyList(edges, n - 1);
    }
  }

  lemma DependencyListIsDependencies(g: Graph)
    ensures Layering.ArcSet(DependencyList(g.edges, |g.edges|)) == Dependencies(g)
  {
    var arcs := DependencyList(g.edges, |g.edges|);
    DependencyListArcs(g.edges, |g.edges|);
    forall a
      ensures a in Layering.ArcSet(arcs) <==> a in Dependencies(g)
    {
      DependencyIff(g, a.0, a.1);
    }
  }

  lemma EndsKnown(g: Graph)
    requires EdgesWellFormed(NodeNames(g), g.edges)
    ensures Ends(Dependencies(g)) <= NodeNames(g)
  {
    forall v | v in Ends(Dependencies(g))
      ensures v in NodeNames(g)
    {
      var a :| a in Dependencies(g) && (a.0 == v || a.1 == v);
      var e :| e in g.edges && !e.feedback && (e.from, e.to) == a;
      var i :| 0 <= i < |g.edges| && g.edges[i] == e;
    }
  }

  function Inside(arcs: seq<Arc>, s: set<string>, n: nat): seq<Arc>
    requires n <= |arcs|
  {
    if n == 0 then []
    else Inside(arcs, s, n - 1) + (if arcs[n - 1].0 in s && arcs[n - 1].1 in s then [arcs[n - 1]] else [])
  }

  ghost function Blocked(d: set<Arc>, names: set<string>): set<string> {
    set v | v in names && Layering.CycleBound(d, v)
  }

  /** E101: the nodes in or after a cycle, and the dependency edges among them. */
  ghost function CycleError(g: Graph): Diagnostic {
    var blocked := Blocked(Dependencies(g), NodeNames(g));
    var arcs := DependencyList(g.edges, |g.edges|);
    Cycle(Sorted(blocked), Inside(arcs, blocked, |arcs|))
  }

  /** A feedback route goes back to a node its source depends on. */
  ghost predicate Ordered(g: Graph, e: Edge) {
    Reaches(Dependencies(g), e.to, e.from)
  }

  ghost predicate RoutesOrdered(g: Graph, n: nat)
    requires n <= |g.edges|
  {
    forall i :: 0 <= i < n && g.edges[i].feedback ==> Ordered(g, g.edges[i])
  }

  ghost function RouteErrors(g: Graph, n: nat): seq<Diagnostic>
    requires n <= |g.edges|
  {
    if n == 0 then []
    else
      var e := g.edges[n - 1];
      RouteErrors(g, n - 1)
      + (if e.feedback && !Ordered(g, e) then [UnorderedFeedback(e, Sorted(Downstream.DownstreamSet(g, e.to)))] else [])
  }

  lemma {:induction false} RouteErrorsIff(g: Graph, n: nat)
    requires n <= |g.edges|
    ensures RouteErrors(g, n) == [] <==> RoutesOrdered(g, n)
  {
    if n == 0 {
      assert RouteErrors(g, n) == [];
      assert RoutesOrdered(g, n);
    } else {
      RouteErrorsIff(g, n - 1);
      var e := g.edges[n - 1];
      assert RouteErrors(g, n) == [] <==> RouteErrors(g, n - 1) == [] && (e.feedback ==> Ordered(g, e));
      assert RoutesOrdered(g, n) == (RoutesOrdered(g, n - 1) && (e.feedback ==> Ordered(g, e)));
      assert (RouteErrors(g, n) == []) == RoutesOrdered(g, n);
    }
  }

  /** A dependency edge is redundant when its ends are ordered without it. */
  ghost predicate Redundant(g: Graph, e: Edge) {
    !e.feedback && e.from != e.to && Reaches(AlternatePath.Detour(g, e.from, e.to), e.from, e.to)
  }

  ghost predicate NoneRedundant(g: Graph, n: nat)
    requires n <= |g.edges|
  {
    forall i :: 0 <= i < n ==> !Redundant(g, g.edges[i])
  }

  /** One E209 for each redundant edge, in order, with the first of the shortest other paths. */
  ghost predicate RedundancyReport(g: Graph, n: nat, errors: seq<Diagnostic>)
    requires n <= |g.edges|
  {
    if n == 0 then errors == []
    else
      var e := g.edges[n - 1];
      if Redundant(g, e) then
        && errors != []
        && RedundancyReport(g, n - 1, errors[..|errors| - 1])
        && var last := errors[|errors| - 1];
           && last.RedundantDependency? && last.arc == (e.from, e.to)
           && AlternatePath.FirstPath(AlternatePath.Detour(g, e.from, e.to), last.path, e.from, e.to)
      else RedundancyReport(g, n - 1, errors)
  }

  lemma {:induction false} RedundancyReportIff(g: Graph, n: nat, errors: seq<Diagnostic>)
    requires n <= |g.edges| && RedundancyReport(g, n, errors)
    ensures errors == [] <==> NoneRedundant(g, n)
  {
    if n > 0 && !Redundant(g, g.edges[n - 1]) {
      RedundancyReportIff(g, n - 1, errors);
    }
  }

  function TasksOf(nodes: seq<Node>): set<string> {
    set n | n in nodes :: n.task
  }

  function NamesWithTask(nodes: seq<Node>, task: string): set<string> {
    set n | n in nodes && n.task == task :: n.name
  }

  function TaskWarnings(nodes: seq<Node>, tasks: seq<string>, n: nat): seq<Warning>
    requires n <= |tasks|
  {
    if n == 0 then []
    else
      var names := NamesWithTask(nodes, tasks[n - 1]);
      TaskWarnings(nodes, tasks, n - 1) + (if |names| > 1 then [IdenticalTasks(Sorted(names))] else [])
  }

  predicate Contains(s: string, part: string) {
    exists i :: 0 <= i <= |s| && Text.OccursAt(s, i, part)
  }

  predicate SendsFeedback(g: Graph, name: string) {
    exists e :: e in g.edges && e.feedback && e.from == name
  }

  function MarkerWarnings(g: Graph, n: nat): seq<Warning>
    requires n <= |g.nodes|
  {
    if n == 0 then []
    else
      var node := g.nodes[n - 1];
      MarkerWarnings(g, n - 1)
      + (if Contains(node.task, "<FEEDBACK>") && !SendsFeedback(g, node.name) then [UnroutedMarker(node.name)] else [])
  }

  ghost function InvalidationWarnings(g: Graph, n: nat): seq<Warning>
    requires n <= |g.edges|
  {
    if n == 0 then []
    else
      var e := g.edges[n - 1];
      InvalidationWarnings(g, n - 1)
      + (if e.feedback then [Invalidation(e.from, e.to, Sorted(Downstream.DownstreamSet(g, e.to)))] else [])
  }

  /** W301, then W302, then W303. */
  ghost function Warnings(g: Graph): seq<Warning> {
    var tasks := Sorted(TasksOf(g.nodes));
    TaskWarnings(g.nodes, tasks, |tasks|) + MarkerWarnings(g, |g.nodes|) + InvalidationWarnings(g, |g.edges|)
  }

  // ----- the whole answer

  ghost predicate IsOrder(g: Graph, p: Plan) {
    && Layering.Layered(Dependencies(g), NodeNames(g), p.batches)
    && p.roots == Sorted(Layering.Roots(Dependencies(g), NodeNames(g)))
    && p.terminals == Sorted(Layering.Terminals(Dependencies(g), NodeNames(g)))
  }

  ghost predicate IsPlan(g: Graph, p: Plan) {
    IsOrder(g, p) && p.warnings == Warnings(g)
  }

  /** What the compiler answers for a graph: the earliest failing stage reports, else there is a plan. */
  ghost predicate Answers(fold: Fold, g: Graph, finalCheck: bool, rejectRedundant: bool,
                          r: Result<Plan, seq<Diagnostic>>)
  {
    if !WellFormed(fold, g, finalCheck) then r == Err(StructuralErrors(fold, g, finalCheck))
    else if !Acyclic(Dependencies(g)) then r == Err([CycleError(g)])
    else if !RoutesOrdered(g, |g.edges|) then r == Err(RouteErrors(g, |g.edges|))
    else if rejectRedundant && !NoneRedundant(g, |g.edges|) then r.Err? && RedundancyReport(g, |g.edges|, r.error)
    else r.Ok? && IsPlan(g, r.value)
  }

  // ----- the stages after ordering, as the compiler runs them

  method CheckRoutes(g: Graph) returns (errors: seq<Diagnostic>)
    ensures errors == RouteErrors(g, |g.edges|)
  {
    errors := [];
    for i := 0 to |g.edges|
      invariant errors == RouteErrors(g, i)
    {
      var e := g.edges[i];
      if e.feedback {
        var reachable := Downstream.Search(g, e.to);
        Downstream.DownstreamIffReaches(g, e.to, e.from);
        if e.from !in reachable {
          errors := errors + [UnorderedFeedback(e, Sorted(reachable))];
        }
      }
    }
  }

  method CheckRedundancy(g: Graph) returns (errors: seq<Diagnostic>)
    ensures RedundancyReport(g, |g.edges|, errors)
  {
    errors := [];
    for i := 0 to |g.edges|
      invariant RedundancyReport(g, i, errors)
    {
      var e := g.edges[i];
      if !e.feedback {
        var other := AlternatePath.Search(g, e.from, e.to);
        if other.Some? {
          ghost var before := errors;
          errors := errors + [RedundantDependency((e.from, e.to), other.value)];
          assert errors[..|errors| - 1] == before;
        }
      }
    }
  }

  ghost predicate TasksGathered(nodes: seq<Node>, byTask: map<string, set<string>>) {
    byTask.Keys == TasksOf(nodes) && forall t :: t in byTask ==> byTask[t] == NamesWithTask(nodes, t)
  }

  method GatherTasks(nodes: seq<Node>) returns (byTask: map<string, set<string>>)
    ensures TasksGathered(nodes, byTask)
  {
    byTask := map[];
    for i := 0 to |nodes|
      invariant TasksGathered(nodes[..i], byTask)
    {
      var n := nodes[i];
      TasksGatheredNext(nodes, i, byTask);
      byTask := byTask[n.task := (if n.task in byTask then byTask[n.task] else {}) + {n.name}];
    }
    assert nodes[..|nodes|] == nodes;
  }

  lemma TasksGatheredNext(nodes: seq<Node>, i: nat, byTask: map<string, set<string>>)
    requires i < |nodes| && TasksGathered(nodes[..i], byTask)
    ensures var n := nodes[i];
      TasksGathered(nodes[..i + 1], byTask[n.task := (if n.task in byTask then byTask[n.task] else {}) + {n.name}])
  {
    var n := nodes[i];
    OneMoreTask(nodes, i);
    var byTask' := byTask[n.task := (if n.task in byTask then byTask[n.task] else {}) + {n.name}];
    assert byTask'.Keys == TasksOf(nodes[..i + 1]);
  }

  lemma OneMoreTask(nodes: seq<Node>, i: nat)
    requires i < |nodes|
    ensures var n := nodes[i];
      && TasksOf(nodes[..i + 1]) == TasksOf(nodes[..i]) + {n.task}
      && (forall t :: NamesWithTask(nodes[..i + 1], t) == NamesWithTask(nodes[..i], t) + (if n.task == t then {n.name} else {}))
      && (forall t :: t !in TasksOf(nodes[..i]) ==> NamesWithTask(nodes[..i], t) == {})
  {
    var n := nodes[i];
    assert nodes[..i + 1] == nodes[..i] + [n];
    forall t
      ensures NamesWithTask(nodes[..i + 1], t) == NamesWithTask(nodes[..i], t) + (if n.task == t then {n.name} else {})
    {
    }
  }

  method Warn(g: Graph) returns (warnings: seq<Warning>)
    ensures warnings == Warnings(g)
  {
    var byTask := GatherTasks(g.nodes);
    var tasks := Sorted(byTask.Keys);
    var shared: seq<Warning> := [];
    for i := 0 to |tasks|
      invariant shared == TaskWarnings(g.nodes, tasks, i)
    {
      assert tasks[i] in Elements(tasks);
      if |byTask[tasks[i]]| > 1 {
        shared := shared + [IdenticalTasks(Sorted(byTask[tasks[i]]))];
      }
    }
    var markers: seq<Warning> := [];
    for i := 0 to |g.nodes|
      invariant markers == MarkerWarnings(g, i)
    {
      if Contains(g.nodes[i].task, "<FEEDBACK>") && !SendsFeedback(g, g.nodes[i].name) {
        markers := markers + [UnroutedMarker(g.nodes[i].name)];
      }
    }
    var routes: seq<Warning> := [];
    for i := 0 to |g.edges|
      invariant routes == InvalidationWarnings(g, i)
    {
      var e := g.edges[i];
      if e.feedback {
        var invalidated := Downstream.Search(g, e.to);
        routes := routes + [Invalidation(e.from, e.to, Sorted(invalidated))];
      }
    }
    warnings := shared + markers + routes;
  }

  method CheckStructure(fold: Fold, g: Graph, finalCheck: bool) returns (errors: seq<Diagnostic>, names: set<string>)
    ensures errors == StructuralErrors(fold, g, finalCheck) && names == NodeNames(g)
  {
    errors := [];
    if finalCheck && g.nodes == [] {
      errors := [EmptyGraph];
    }
    var nodeErrors;
    nodeErrors, names := CheckNodes(fold, g.nodes);
    CollectedIsNodeNames(g, names);
    var edgeErrors := CheckEdges(names, g.edges);
    var targetErrors := CheckFeedbackTargets(g.edges);
    errors := errors + nodeErrors + edgeErrors + targetErrors;
  }

  lemma ArcsReady(g: Graph)
    requires EdgesWellFormed(NodeNames(g), g.edges)
    ensures var arcs := DependencyList(g.edges, |g.edges|);
      && Collections.Distinct(arcs) && Layering.ArcSet(arcs) == Dependencies(g)
      && Ends(Dependencies(g)) <= NodeNames(g)
  {
    DependencyListDistinct(NodeNames(g), g.edges, |g.edges|);
    DependencyListIsDependencies(g);
    EndsKnown(g);
  }

  /** The layered sort of the dependency edges, or the cycle that prevents it. */
  method Order(g: Graph, names: set<string>) returns (r: Result<Plan, Diagnostic>)
    requires names == NodeNames(g) && EdgesWellFormed(names, g.edges)
    ensures r.Ok? <==> Acyclic(Dependencies(g))
    ensures r.Err? ==> r.error == CycleError(g)
    ensures r.Ok? ==> IsOrder(g, r.value)
  {
    ArcsReady(g);
    var arcs := DependencyList(g.edges, |g.edges|);
    var batches, visited, roots := Layering.Layers(names, arcs);
    Layering.AcyclicIffNothingBound(Dependencies(g), names);
    if visited != names {
      CycleReported(g, names, arcs, visited);
      return Err(Cycle(Sorted(names - visited), Inside(arcs, names - visited, |arcs|)));
    }
    Layering.SettledIsLayered(Dependencies(g), names, batches);
    r := Ok(Plan(batches, roots, Sorted(Layering.Terminals(Layering.ArcSet(arcs), names)), []));
  }

  /** `compile_with_policy`. */
  method CompileWithPolicy(fold: Fold, g: Graph, finalCheck: bool, rejectRedundant: bool)
    returns (r: Result<Plan, seq<Diagnostic>>)
    ensures Answers(fold, g, finalCheck, rejectRedundant, r)
  {
    var errors, names := CheckStructure(fold, g, finalCheck);
    StructuralErrorsIff(fold, g, finalCheck);
    if errors != [] {
      return Err(errors);
    }
    var order := Order(g, names);
    if order.Err? {
      return Err([order.error]);
    }
    errors := CheckRoutes(g);
    RouteErrorsIff(g, |g.edges|);
    if errors != [] {
      return Err(errors);
    }
    if rejectRedundant {
      errors := CheckRedundancy(g);
      RedundancyReportIff(g, |g.edges|, errors);
      if errors != [] {
        return Err(errors);
      }
    }
    var warnings := Warn(g);
    r := Ok(order.value.(warnings := warnings));
  }

  lemma CycleReported(g: Graph, names: set<string>, arcs: seq<Arc>, visited: set<string>)
    requires names == NodeNames(g) && arcs == DependencyList(g.edges, |g.edges|)
    requires forall v :: v in names ==> (v !in visited <==> Layering.CycleBound(Dependencies(g), v))
    ensures CycleError(g) == Cycle(Sorted(names - visited), Inside(arcs, names - visited, |arcs|))
  {
    assert Blocked(Dependencies(g), names) == names - visited;
  }

  /** New graphs: redundant dependencies are refused. */
  method Compile(fold: Fold, g: Graph, finalCheck: bool) returns (r: Result<Plan, seq<Diagnostic>>)
    ensures Answers(fold, g, finalCheck, true, r)
  {
    r := CompileWithPolicy(fold, g, finalCheck, true);
  }

  /** Graphs persisted by older runs: redundant dependencies are tolerated. */
  method CompileLegacy(fold: Fold, g: Graph, finalCheck: bool) returns (r: Result<Plan, seq<Diagnostic>>)
    ensures Answers(fold, g, finalCheck, false, r)
  {
    r := CompileWithPolicy(fold, g, finalCheck, false);
  }
}
