/** What the compiler's answers say about a graph, in terms of its nodes, its edges and paths through them. */
module CompilerAnswers {
  import opened Wrappers
  import opened Names
  import opened Paths
  import opened Model
  import opened Compiler
  import opened Whitespace
  import Downstream
  import AlternatePath
  import Layering
  import Reduction
  import Text

  // ----- before ordering

  /** Node `i` is the first of its name. */
  ghost predicate First(nodes: seq<Node>, i: int) {
    0 <= i < |nodes| && forall k :: 0 <= k < i ==> nodes[k].name != nodes[i].name
  }

  /** Node `i` is the last before `j` whose name, first used there, folds to `folded`. */
  ghost predicate LastFold(fold: Fold, nodes: seq<Node>, i: int, j: int, folded: string) {
    && 0 <= i < j <= |nodes| && First(nodes, i) && fold(nodes[i].name) == folded
    && forall k :: i < k < j && First(nodes, k) ==> fold(nodes[k].name) != folded
  }

  ghost predicate Collides(fold: Fold, nodes: seq<Node>, j: int, previous: string) {
    First(nodes, j) && exists i :: LastFold(fold, nodes, i, j, fold(nodes[j].name)) && nodes[i].name == previous
  }

  ghost predicate Unknown(g: Graph, name: string) {
    forall n :: n in g.nodes ==> n.name != name
  }

  /** What is wrong with the nodes and edges by themselves. */
  ghost predicate IsStructural(fold: Fold, g: Graph, finalCheck: bool, d: Diagnostic) {
    match d
    case EmptyGraph => finalCheck && g.nodes == []
    case EmptyName => exists n :: n in g.nodes && n.name == ""
    case DuplicateName(name) => exists i, j :: 0 <= i < j < |g.nodes| && g.nodes[i].name == name && g.nodes[j].name == name
    case CaseCollision(previous, name) => exists j :: Collides(fold, g.nodes, j, previous) && g.nodes[j].name == name
    case EmptyTask(name) => exists n :: n in g.nodes && n.name == name && forall c :: c in n.task ==> IsSpace(c)
    case UnknownEndpoint(e, missing) =>
      && e in g.edges && (Unknown(g, e.from) || Unknown(g, e.to))
      && missing == (if !Unknown(g, e.to) then [e.from] else if !Unknown(g, e.from) then [e.to] else [e.from, e.to])
    case SelfEdge(name) => exists e :: e in g.edges && e.from == name && e.to == name
    case DuplicateEdge(e) =>
      exists i, j :: 0 <= i < j < |g.edges| && g.edges[j] == e && g.edges[i].from == e.from && g.edges[i].to == e.to
    case ManyFeedbackTargets(name, targets) =>
      Ascending(targets) && |targets| > 1 && forall t :: t in targets <==> Edge(name, t, true) in g.edges
    case _ => false
  }

  lemma {:induction false} LastFoldedIs(fold: Fold, nodes: seq<Node>, j: nat, folded: string, previous: string)
    requires j <= |nodes|
    ensures LastFolded(fold, nodes, j, folded) == Some(previous) <==>
            exists i :: LastFold(fold, nodes, i, j, folded) && nodes[i].name == previous
  {
    if j > 0 {
      LastFoldedIs(fold, nodes, j - 1, folded, previous);
      var k := j - 1;
      assert First(nodes, k) <==> !NamedBefore(nodes, k, nodes[k].name);
      if First(nodes, k) && fold(nodes[k].name) == folded {
        assert LastFold(fold, nodes, k, j, folded);
      } else {
        forall i
          ensures LastFold(fold, nodes, i, j, folded) <==> LastFold(fold, nodes, i, k, folded)
        {
        }
      }
    }
  }

  // ----- lists gathered part by part

  ghost function Flat<T>(parts: seq<seq<T>>): seq<T> {
    if parts == [] then [] else Flat(parts[..|parts| - 1]) + parts[|parts| - 1]
  }

  lemma {:induction false} FlatIff<T>(parts: seq<seq<T>>, x: T)
    ensures x in Flat(parts) <==> exists i :: 0 <= i < |parts| && x in parts[i]
  {
    if parts != [] {
      FlatIff(parts[..|parts| - 1], x);
    }
  }

  ghost function NodeParts(fold: Fold, nodes: seq<Node>): seq<seq<Diagnostic>> {
    seq(|nodes|, i requires 0 <= i < |nodes| => NodeErrors(fold, nodes, i))
  }

  lemma {:induction false} NodePartsFlat(fold: Fold, nodes: seq<Node>, n: nat)
    requires n <= |nodes|
    ensures AllNodeErrors(fold, nodes, n) == Flat(NodeParts(fold, nodes)[..n])
  {
    if n > 0 {
      NodePartsFlat(fold, nodes, n - 1);
      var parts := NodeParts(fold, nodes);
      assert parts[..n][..n - 1] == parts[..n - 1] && parts[..n][n - 1] == NodeErrors(fold, nodes, n - 1);
    }
  }

  ghost function EdgeParts(names: set<string>, edges: seq<Edge>): seq<seq<Diagnostic>> {
    seq(|edges|, i requires 0 <= i < |edges| => EdgeErrors(names, edges, i))
  }

  lemma {:induction false} EdgePartsFlat(names: set<string>, edges: seq<Edge>, n: nat)
    requires n <= |edges|
    ensures AllEdgeErrors(names, edges, n) == Flat(EdgeParts(names, edges)[..n])
  {
    if n > 0 {
      EdgePartsFlat(names, edges, n - 1);
      var parts := EdgeParts(names, edges);
      assert parts[..n][..n - 1] == parts[..n - 1] && parts[..n][n - 1] == EdgeErrors(names, edges, n - 1);
    }
  }

  ghost predicate WrongWithNode(fold: Fold, nodes: seq<Node>, i: int, d: Diagnostic)
    requires 0 <= i < |nodes|
  {
    match d
    case EmptyName => nodes[i].name == ""
    case DuplicateName(name) => nodes[i].name == name && !First(nodes, i)
    case CaseCollision(previous, name) => nodes[i].name == name && Collides(fold, nodes, i, previous)
    case EmptyTask(name) => nodes[i].name == name && Blank(nodes[i].task)
    case _ => false
  }

  lemma NodeErrorIff(fold: Fold, nodes: seq<Node>, i: nat, d: Diagnostic)
    requires i < |nodes|
    ensures d in NodeErrors(fold, nodes, i) <==> WrongWithNode(fold, nodes, i, d)
  {
    var n := nodes[i];
    assert First(nodes, i) <==> !NamedBefore(nodes, i, n.name);
    if d.CaseCollision? {
      LastFoldedIs(fold, nodes, i, fold(n.name), d.previous);
    }
  }

  ghost predicate SomeNodeWrong(fold: Fold, nodes: seq<Node>, d: Diagnostic) {
    exists i :: 0 <= i < |nodes| && WrongWithNode(fold, nodes, i, d)
  }

  lemma AllNodeErrorsIff(fold: Fold, nodes: seq<Node>, d: Diagnostic)
    ensures d in AllNodeErrors(fold, nodes, |nodes|) <==> SomeNodeWrong(fold, nodes, d)
  {
    var parts := NodeParts(fold, nodes);
    NodePartsFlat(fold, nodes, |nodes|);
    Collections.TakeAll(parts);
    FlatIff(parts, d);
    forall i: nat | i < |nodes|
      ensures d in parts[i] <==> WrongWithNode(fold, nodes, i, d)
    {
      NodeErrorIff(fold, nodes, i, d);
    }
  }

  ghost predicate WrongWithEdge(names: set<string>, edges: seq<Edge>, i: int, d: Diagnostic)
    requires 0 <= i < |edges|
  {
    var e := edges[i];
    match d
    case UnknownEndpoint(edge, missing) => edge == e && missing == Missing(names, e) && missing != []
    case SelfEdge(name) => e.from == name && e.to == name
    case DuplicateEdge(edge) => edge == e && exists j :: 0 <= j < i && edges[j].from == e.from && edges[j].to == e.to
    case _ => false
  }

  lemma EdgeErrorIff(names: set<string>, edges: seq<Edge>, i: nat, d: Diagnostic)
    requires i < |edges|
    ensures d in EdgeErrors(names, edges, i) <==> WrongWithEdge(names, edges, i, d)
  {}

  ghost predicate SomeEdgeWrong(names: set<string>, edges: seq<Edge>, d: Diagnostic) {
    exists i :: 0 <= i < |edges| && WrongWithEdge(names, edges, i, d)
  }

  lemma AllEdgeErrorsIff(names: set<string>, edges: seq<Edge>, d: Diagnostic)
    ensures d in AllEdgeErrors(names, edges, |edges|) <==> SomeEdgeWrong(names, edges, d)
  {
    var parts := EdgeParts(names, edges);
    EdgePartsFlat(names, edges, |edges|);
    Collections.TakeAll(parts);
    FlatIff(parts, d);
    forall i: nat | i < |edges|
      ensures d in parts[i] <==> WrongWithEdge(names, edges, i, d)
    {
      EdgeErrorIff(names, edges, i, d);
    }
  }

  lemma {:induction false} TargetErrorsIn(edges: seq<Edge>, sources: seq<string>, n: nat, d: Diagnostic)
    requires n <= |sources|
    ensures d in TargetErrors(edges, sources, n) <==>
            exists s :: s in sources[..n] && |FeedbackTargets(edges, s)| > 1
                        && d == ManyFeedbackTargets(s, Sorted(FeedbackTargets(edges, s)))
  {
    if n > 0 {
      TargetErrorsIn(edges, sources, n - 1, d);
      assert sources[..n] == sources[..n - 1] + [sources[n - 1]];
    }
  }

  lemma TargetIff(edges: seq<Edge>, source: string, target: string)
    ensures target in FeedbackTargets(edges, source) <==> Edge(source, target, true) in edges
  {
    if target in FeedbackTargets(edges, source) {
      var e :| e in edges && e.feedback && e.from == source && e.to == target;
      assert e == Edge(source, target, true);
    }
    if Edge(source, target, true) in edges {
      var e := Edge(source, target, true);
      assert e in edges && e.feedback && e.from == source && e.to == target;
    }
  }

  lemma {:induction false} AscendingSize(s: seq<string>)
    requires Ascending(s)
    ensures |Elements(s)| == |s|
  {
    if s != [] {
      AscendingTail(s);
      AscendingSize(s[1..]);
      assert Elements(s) == Elements(s[1..]) + {s[0]};
    } else {
      assert Elements(s) == {};
    }
  }

  lemma ManyTargetsIff(g: Graph, d: Diagnostic)
    ensures d in AllTargetErrors(g.edges) <==> d.ManyFeedbackTargets? && IsStructural((x: string) => x, g, false, d)
  {
    var sources := Sorted(FeedbackSources(g.edges));
    TargetErrorsIn(g.edges, sources, |sources|, d);
    assert sources[..|sources|] == sources;
    if d.ManyFeedbackTargets? {
      var targets := FeedbackTargets(g.edges, d.name);
      forall t
        ensures t in targets <==> Edge(d.name, t, true) in g.edges
      {
        TargetIff(g.edges, d.name, t);
      }
      AscendingSize(Sorted(targets));
      assert forall t :: t in Sorted(targets) <==> t in Elements(Sorted(targets));
      if IsStructural((x: string) => x, g, false, d) {
        AscendingSize(d.targets);
        assert forall t :: t in d.targets <==> t in Elements(d.targets);
        assert Elements(d.targets) == targets;
        AscendingUnique(d.targets, Sorted(targets));
        assert d.targets[0] in targets;
        assert Edge(d.name, d.targets[0], true) in g.edges;
        assert d.name in FeedbackSources(g.edges);
        assert d.name in Elements(sources);
      }
    }
  }

  lemma UnknownIff(g: Graph, name: string)
    ensures Unknown(g, name) <==> name !in NodeNames(g)
  {}

  lemma EdgesIff(g: Graph, d: Diagnostic)
    ensures d in AllEdgeErrors(NodeNames(g), g.edges, |g.edges|) <==>
            (d.UnknownEndpoint? || d.SelfEdge? || d.DuplicateEdge?) && IsStructural((x: string) => x, g, false, d)
  {
    AllEdgeErrorsIff(NodeNames(g), g.edges, d);
    match d
    case UnknownEndpoint(e, missing) =>
      MissingIff(g, e, missing);
      if i :| 0 <= i < |g.edges| && g.edges[i] == e && IsStructural((x: string) => x, g, false, d) {
        assert WrongWithEdge(NodeNames(g), g.edges, i, d);
      }
    case SelfEdge(name) =>
      if e :| e in g.edges && e.from == name && e.to == name {
        var i :| 0 <= i < |g.edges| && g.edges[i] == e;
        assert WrongWithEdge(NodeNames(g), g.edges, i, d);
      }
    case DuplicateEdge(e) =>
      if i, j :| 0 <= i < j < |g.edges| && g.edges[j] == e && g.edges[i].from == e.from && g.edges[i].to == e.to {
        assert WrongWithEdge(NodeNames(g), g.edges, j, d);
      }
    case _ =>
  }

  lemma MissingIff(g: Graph, e: Edge, missing: seq<string>)
    ensures missing == Missing(NodeNames(g), e) && missing != [] <==>
            && (Unknown(g, e.from) || Unknown(g, e.to))
            && missing == (if !Unknown(g, e.to) then [e.from] else if !Unknown(g, e.from) then [e.to] else [e.from, e.to])
  {
    UnknownIff(g, e.from);
    UnknownIff(g, e.to);
  }

  lemma NodeAt(nodes: seq<Node>, n: Node)
    ensures n in nodes <==> exists i :: 0 <= i < |nodes| && nodes[i] == n
  {}

  lemma NodesIff(fold: Fold, g: Graph, d: Diagnostic)
    ensures d in AllNodeErrors(fold, g.nodes, |g.nodes|) <==>
            (d.EmptyName? || d.DuplicateName? || d.CaseCollision? || d.EmptyTask?) && IsStructural(fold, g, false, d)
  {
    AllNodeErrorsIff(fold, g.nodes, d);
    match d
    case EmptyName =>
      assert SomeNodeWrong(fold, g.nodes, d) ==> exists n :: n in g.nodes && n.name == "";
      if n :| n in g.nodes && n.name == "" {
        var i :| 0 <= i < |g.nodes| && g.nodes[i] == n;
        assert WrongWithNode(fold, g.nodes, i, d);
      }
    case DuplicateName(name) =>
      if i, j :| 0 <= i < j < |g.nodes| && g.nodes[i].name == name && g.nodes[j].name == name {
        assert WrongWithNode(fold, g.nodes, j, d);
      }
    case CaseCollision(previous, name) =>
      if j :| Collides(fold, g.nodes, j, previous) && g.nodes[j].name == name {
        assert WrongWithNode(fold, g.nodes, j, d);
      }
    case EmptyTask(name) =>
      if n :| n in g.nodes && n.name == name && Blank(n.task) {
        var i :| 0 <= i < |g.nodes| && g.nodes[i] == n;
        assert WrongWithNode(fold, g.nodes, i, d);
      }
    case _ =>
  }

  /** Before ordering, exactly what is wrong with nodes and edges is reported. */
  lemma StructuralReportIff(fold: Fold, g: Graph, finalCheck: bool, d: Diagnostic)
    ensures d in StructuralErrors(fold, g, finalCheck) <==> IsStructural(fold, g, finalCheck, d)
  {
    NodesIff(fold, g, d);
    EdgesIff(g, d);
    ManyTargetsIff(g, d);
  }

  // ----- ordering, routes and redundant edges

  /** What keeps the graph from being ordered: the nodes in or after a cycle, and the edges among them. */
  ghost predicate IsCycle(g: Graph, d: Diagnostic) {
    && d.Cycle?
    && Ascending(d.blocked)
    && (forall v :: v in d.blocked <==> v in NodeNames(g) && exists c :: OnCycle(Dependencies(g), c) && Reaches(Dependencies(g), c, v))
    && (forall a: Arc :: a in d.edges <==> Edge(a.0, a.1, false) in g.edges && a.0 in d.blocked && a.1 in d.blocked)
    && Listed(g, d.edges)
  }

  /** Dependencies in the order in which the graph lists them, each once. */
  ghost predicate Listed(g: Graph, arcs: seq<Arc>) {
    forall i, j, k, l {:trigger Named(g, arcs, i, k), Named(g, arcs, j, l)} ::
      Named(g, arcs, i, k) && Named(g, arcs, j, l) && i < j ==> k < l
  }

  ghost predicate Named(g: Graph, arcs: seq<Arc>, i: int, k: int) {
    0 <= i < |arcs| && 0 <= k < |g.edges| && g.edges[k] == Edge(arcs[i].0, arcs[i].1, false)
  }

  ghost predicate HasCycle(g: Graph) {
    exists v :: Follows(Dependencies(g), v, v)
  }

  /** A feedback route whose source does not come after its target, with all that does. */
  ghost predicate IsUnordered(g: Graph, d: Diagnostic) {
    && d.UnorderedFeedback? && d.edge in g.edges && d.edge.feedback
    && !Reaches(Dependencies(g), d.edge.to, d.edge.from)
    && Ascending(d.reachable) && forall v :: v in d.reachable <==> Reaches(Dependencies(g), d.edge.to, v)
  }

  /** A dependency whose ends are ordered without it, with the first of the shortest paths that do so. */
  ghost predicate IsRedundant(g: Graph, d: Diagnostic) {
    && d.RedundantDependency? && Edge(d.arc.0, d.arc.1, false) in g.edges
    && d.arc.0 != d.arc.1
    && var others := Dependencies(g) - {d.arc};
       && PathBetween(others, d.path, d.arc.0, d.arc.1)
       && forall q :: PathBetween(others, q, d.arc.0, d.arc.1) && q != d.path ==> Before(d.path, q)
  }

  lemma {:induction false} InsideListed(g: Graph, s: set<string>, n: nat)
    requires n <= |g.edges| && EdgesWellFormed(NodeNames(g), g.edges)
    ensures var arcs := DependencyList(g.edges, n); var inside := Inside(arcs, s, |arcs|);
            Listed(g, inside) && forall i, k :: Named(g, inside, i, k) ==> k < n
  {
    if n > 0 {
      InsideListed(g, s, n - 1);
      var before := DependencyList(g.edges, n - 1);
      var e := g.edges[n - 1];
      if e.feedback {
        assert before + [] == before;
      } else {
        InsidePrefix(before, [(e.from, e.to)], s, |before|);
        assert Inside(before, s, |before|) + [] == Inside(before, s, |before|);
        ListedNext(g, Inside(before, s, |before|), n - 1);
      }
    }
  }

  lemma {:induction false} InsidePrefix(a: seq<Arc>, b: seq<Arc>, s: set<string>, n: nat)
    requires n <= |a|
    ensures Inside(a + b, s, n) == Inside(a, s, n)
  {
    if n > 0 {
      InsidePrefix(a, b, s, n - 1);
    }
  }

  lemma ListedNext(g: Graph, arcs: seq<Arc>, n: nat)
    requires EdgesWellFormed(NodeNames(g), g.edges) && n < |g.edges| && !g.edges[n].feedback
    requires Listed(g, arcs) && forall i, k :: Named(g, arcs, i, k) ==> k < n
    ensures var more := arcs + [(g.edges[n].from, g.edges[n].to)];
            Listed(g, more) && forall i, k :: Named(g, more, i, k) ==> k <= n
  {
    var more := arcs + [(g.edges[n].from, g.edges[n].to)];
    forall i, k | Named(g, more, i, k)
      ensures if i < |arcs| then Named(g, arcs, i, k) && k < n else k == n
    {
      if i < |arcs| {
        assert more[i] == arcs[i];
        assert Named(g, arcs, i, k);
      }
    }
  }

  lemma {:induction false} InsideIff(arcs: seq<Arc>, s: set<string>, n: nat)
    requires n <= |arcs|
    ensures forall a :: a in Inside(arcs, s, n) <==> a in arcs[..n] && a.0 in s && a.1 in s
  {
    if n > 0 {
      InsideIff(arcs, s, n - 1);
      assert arcs[..n] == arcs[..n - 1] + [arcs[n - 1]];
    }
  }

  /** The nodes and edges a cycle report names. */
  lemma CycleReport(g: Graph)
    requires EdgesWellFormed(NodeNames(g), g.edges)
    ensures IsCycle(g, CycleError(g))
  {
    var d := CycleError(g);
    var blocked := Compiler.Blocked(Dependencies(g), NodeNames(g));
    var arcs := DependencyList(g.edges, |g.edges|);
    forall v
      ensures v in d.blocked <==> v in blocked
    {
      assert v in d.blocked <==> v in Elements(d.blocked);
    }
    InsideIff(arcs, blocked, |arcs|);
    assert arcs[..|arcs|] == arcs;
    DependencyListArcs(g.edges, |g.edges|);
    InsideListed(g, blocked, |g.edges|);
  }

  lemma {:induction false} RouteErrorIn(g: Graph, n: nat, d: Diagnostic)
    requires n <= |g.edges|
    ensures d in RouteErrors(g, n) <==>
            exists i :: 0 <= i < n && g.edges[i].feedback && !Ordered(g, g.edges[i])
                        && d == UnorderedFeedback(g.edges[i], Sorted(Downstream.DownstreamSet(g, g.edges[i].to)))
  {
    if n > 0 {
      RouteErrorIn(g, n - 1, d);
    }
  }

  lemma SortedIs(s: set<string>, r: seq<string>)
    ensures r == Sorted(s) <==> Ascending(r) && forall v :: v in r <==> v in s
  {
    assert forall v :: v in Sorted(s) <==> v in Elements(Sorted(s));
    if Ascending(r) && forall v :: v in r <==> v in s {
      assert Elements(r) == s;
      AscendingUnique(r, Sorted(s));
    }
  }

  lemma DownstreamListed(g: Graph, v: string, r: seq<string>)
    ensures r == Sorted(Downstream.DownstreamSet(g, v)) <==>
            Ascending(r) && forall u :: u in r <==> Reaches(Dependencies(g), v, u)
  {
    SortedIs(Downstream.DownstreamSet(g, v), r);
    forall u
      ensures u in Downstream.DownstreamSet(g, v) <==> Reaches(Dependencies(g), v, u)
    {
      Downstream.DownstreamIffReaches(g, v, u);
    }
  }

  /** Exactly the routes that do not go back are reported. */
  lemma RouteReportIff(g: Graph, d: Diagnostic)
    ensures d in RouteErrors(g, |g.edges|) <==> IsUnordered(g, d)
  {
    RouteErrorIn(g, |g.edges|, d);
    if d.UnorderedFeedback? {
      DownstreamListed(g, d.edge.to, d.reachable);
      if d.edge in g.edges {
        var i :| 0 <= i < |g.edges| && g.edges[i] == d.edge;
      }
    }
  }

  lemma FirstPathIs(d: set<Arc>, p: seq<string>, u: string, v: string)
    ensures AlternatePath.FirstPath(d, p, u, v) <==>
            PathBetween(d, p, u, v) && forall q :: PathBetween(d, q, u, v) && q != p ==> Before(p, q)
  {
  }

  lemma {:induction false} RedundantIn(g: Graph, n: nat, errors: seq<Diagnostic>, d: Diagnostic)
    requires n <= |g.edges| && RedundancyReport(g, n, errors)
    ensures d in errors ==> exists i :: 0 <= i < n && RedundantAt(g, i, d)
    ensures (exists i :: 0 <= i < n && RedundantAt(g, i, d)) ==> d in errors
  {
    if n > 0 {
      var e := g.edges[n - 1];
      if Redundant(g, e) {
        var last := errors[|errors| - 1];
        RedundantIn(g, n - 1, errors[..|errors| - 1], d);
        assert errors == errors[..|errors| - 1] + [last];
        if RedundantAt(g, n - 1, d) {
          AlternatePath.FirstPathUnique(AlternatePath.Detour(g, e.from, e.to), d.path, last.path, e.from, e.to);
        }
        if d == last {
          assert RedundantAt(g, n - 1, d);
        }
      } else {
        RedundantIn(g, n - 1, errors, d);
        if RedundantAt(g, n - 1, d) {
          assert Reaches(AlternatePath.Detour(g, e.from, e.to), e.from, e.to);
        }
      }
    }
  }

  ghost predicate RedundantAt(g: Graph, i: int, d: Diagnostic)
    requires 0 <= i < |g.edges|
  {
    var e := g.edges[i];
    && !e.feedback && e.from != e.to && d.RedundantDependency? && d.arc == (e.from, e.to)
    && AlternatePath.FirstPath(AlternatePath.Detour(g, e.from, e.to), d.path, e.from, e.to)
  }

  /** Exactly the redundant edges are reported, each with its detour. */
  lemma RedundantReportIff(g: Graph, errors: seq<Diagnostic>, d: Diagnostic)
    requires RedundancyReport(g, |g.edges|, errors)
    ensures d in errors <==> IsRedundant(g, d)
  {
    RedundantIn(g, |g.edges|, errors, d);
    if d.RedundantDependency? {
      FirstPathIs(Dependencies(g) - {d.arc}, d.path, d.arc.0, d.arc.1);
      if Edge(d.arc.0, d.arc.1, false) in g.edges {
        var i :| 0 <= i < |g.edges| && g.edges[i] == Edge(d.arc.0, d.arc.1, false);
        assert RedundantAt(g, i, d) <==> IsRedundant(g, d);
      }
    }
  }

  // ----- the whole report

  ghost predicate AnyStructural(fold: Fold, g: Graph, finalCheck: bool) {
    exists d :: IsStructural(fold, g, finalCheck, d)
  }

  ghost predicate AnyUnordered(g: Graph) {
    exists e :: e in g.edges && e.feedback && !Reaches(Dependencies(g), e.to, e.from)
  }

  ghost predicate AnyRedundant(g: Graph) {
    exists e :: e in g.edges && !e.feedback && Reaches(Dependencies(g) - {(e.from, e.to)}, e.from, e.to)
  }

  /** What is reported: only the problems of the earliest stage that has any. */
  ghost predicate IsReported(fold: Fold, g: Graph, finalCheck: bool, rejectRedundant: bool, d: Diagnostic) {
    if AnyStructural(fold, g, finalCheck) then IsStructural(fold, g, finalCheck, d)
    else if HasCycle(g) then IsCycle(g, d)
    else if AnyUnordered(g) then IsUnordered(g, d)
    else rejectRedundant && IsRedundant(g, d)
  }

  lemma WellFormedIff(fold: Fold, g: Graph, finalCheck: bool)
    ensures WellFormed(fold, g, finalCheck) <==> !AnyStructural(fold, g, finalCheck)
  {
    StructuralErrorsIff(fold, g, finalCheck);
    var errors := StructuralErrors(fold, g, finalCheck);
    if errors != [] {
      StructuralReportIff(fold, g, finalCheck, errors[0]);
    }
    if d :| IsStructural(fold, g, finalCheck, d) {
      StructuralReportIff(fold, g, finalCheck, d);
    }
  }

  lemma AllRoutesOrderedIff(g: Graph)
    ensures RoutesOrdered(g, |g.edges|) <==> !AnyUnordered(g)
  {
    if e :| e in g.edges && e.feedback && !Reaches(Dependencies(g), e.to, e.from) {
      var i :| 0 <= i < |g.edges| && g.edges[i] == e;
      assert !Ordered(g, g.edges[i]);
    }
  }

  lemma NothingRedundantIff(g: Graph)
    requires EdgesWellFormed(NodeNames(g), g.edges)
    ensures NoneRedundant(g, |g.edges|) <==> !AnyRedundant(g)
  {
    if e :| e in g.edges && !e.feedback && Reaches(Dependencies(g) - {(e.from, e.to)}, e.from, e.to) {
      var i :| 0 <= i < |g.edges| && g.edges[i] == e;
      assert Redundant(g, g.edges[i]);
    }
    if i :| 0 <= i < |g.edges| && Redundant(g, g.edges[i]) {
      assert g.edges[i] in g.edges;
    }
  }

  lemma CycleUnique(g: Graph, c: Diagnostic, d: Diagnostic)
    requires EdgesWellFormed(NodeNames(g), g.edges) && IsCycle(g, c) && IsCycle(g, d)
    ensures c == d
  {
    assert Elements(c.blocked) == Elements(d.blocked);
    AscendingUnique(c.blocked, d.blocked);
    ListedUnique(g, c.edges, d.edges);
  }

  lemma EdgeAt(g: Graph, arcs: seq<Arc>, i: int) returns (k: int)
    requires 0 <= i < |arcs| && Edge(arcs[i].0, arcs[i].1, false) in g.edges
    ensures Named(g, arcs, i, k)
  {
    k :| 0 <= k < |g.edges| && g.edges[k] == Edge(arcs[i].0, arcs[i].1, false);
  }

  lemma ListedTail(g: Graph, arcs: seq<Arc>)
    requires arcs != [] && Listed(g, arcs)
    ensures Listed(g, arcs[1..])
  {
    forall i, j, k, l | Named(g, arcs[1..], i, k) && Named(g, arcs[1..], j, l) && i < j
      ensures k < l
    {
      assert Named(g, arcs, i + 1, k) && Named(g, arcs, j + 1, l);
    }
  }

  /** A listing in order is determined by what it lists. */
  lemma {:induction false} ListedUnique(g: Graph, a: seq<Arc>, b: seq<Arc>)
    requires Listed(g, a) && Listed(g, b)
    requires forall x: Arc :: x in a <==> x in b
    requires forall x: Arc :: x in a ==> Edge(x.0, x.1, false) in g.edges
    ensures a == b
    decreases |a|
  {
    assert b != [] ==> b[0] in b && b[0] in a;
    if a != [] {
      assert a[0] in b;
      var j :| 0 <= j < |b| && b[j] == a[0];
      var i :| 0 <= i < |a| && a[i] == b[0];
      var k := EdgeAt(g, a, 0);
      var l := EdgeAt(g, b, 0);
      assert Named(g, b, j, k) && Named(g, a, i, l);
      assert i > 0 ==> k < l;
      assert j > 0 ==> l < k;
      assert i == 0 ==> Named(g, b, 0, k);
      assert j == 0 ==> Named(g, a, 0, l);
      ListedTail(g, a);
      ListedTail(g, b);
      TailSame(g, a, b);
      ListedUnique(g, a[1..], b[1..]);
      assert a == [a[0]] + a[1..] && b == [b[0]] + b[1..];
    }
  }

  lemma TailSame(g: Graph, a: seq<Arc>, b: seq<Arc>)
    requires a != [] && b != [] && a[0] == b[0] && Listed(g, a) && Listed(g, b)
    requires forall x: Arc :: x in a <==> x in b
    requires forall x: Arc :: x in a ==> Edge(x.0, x.1, false) in g.edges
    ensures forall x: Arc :: x in a[1..] <==> x in b[1..]
  {
    TailWithin(g, a, b);
    TailWithin(g, b, a);
  }

  lemma TailWithin(g: Graph, a: seq<Arc>, b: seq<Arc>)
    requires a != [] && b != [] && a[0] == b[0] && Listed(g, a)
    requires forall x: Arc :: x in a <==> x in b
    requires forall x: Arc :: x in a ==> Edge(x.0, x.1, false) in g.edges
    ensures forall x: Arc :: x in a[1..] ==> x in b[1..]
  {
    forall x: Arc | x in a[1..]
      ensures x in b[1..]
    {
      var i :| 0 <= i < |a[1..]| && a[1..][i] == x;
      assert a[i + 1] == x;
      var k := EdgeAt(g, a, 0);
      if x == a[0] {
        assert Named(g, a, i + 1, k);
      }
      assert x in b;
      Collections.HeadOrRest(b, x);
    }
  }

  lemma RefusedIff(fold: Fold, g: Graph, finalCheck: bool, rejectRedundant: bool, r: Result<Plan, seq<Diagnostic>>)
    requires Answers(fold, g, finalCheck, rejectRedundant, r)
    ensures r.Err? <==> AnyStructural(fold, g, finalCheck) || HasCycle(g) || AnyUnordered(g) || (rejectRedundant && AnyRedundant(g))
  {
    WellFormedIff(fold, g, finalCheck);
    if WellFormed(fold, g, finalCheck) {
      AllRoutesOrderedIff(g);
      NothingRedundantIff(g);
    }
  }

  lemma LateReportIff(g: Graph, rejectRedundant: bool, r: Result<Plan, seq<Diagnostic>>, d: Diagnostic)
    requires EdgesWellFormed(NodeNames(g), g.edges) && r.Err?
    requires if !Acyclic(Dependencies(g)) then r == Err([CycleError(g)])
             else if !RoutesOrdered(g, |g.edges|) then r == Err(RouteErrors(g, |g.edges|))
             else rejectRedundant && RedundancyReport(g, |g.edges|, r.error)
    ensures d in r.error <==>
            if HasCycle(g) then IsCycle(g, d) else if AnyUnordered(g) then IsUnordered(g, d) else rejectRedundant && IsRedundant(g, d)
  {
    AllRoutesOrderedIff(g);
    if HasCycle(g) {
      CycleReport(g);
      if IsCycle(g, d) {
        CycleUnique(g, CycleError(g), d);
      }
    } else if AnyUnordered(g) {
      RouteReportIff(g, d);
    } else {
      RedundantReportIff(g, r.error, d);
    }
  }

  /** A graph is refused exactly when something of an earliest stage is wrong with it, and all of that is
      reported and nothing else. */
  lemma ReportIff(fold: Fold, g: Graph, finalCheck: bool, rejectRedundant: bool, r: Result<Plan, seq<Diagnostic>>,
                  d: Diagnostic)
    requires Answers(fold, g, finalCheck, rejectRedundant, r)
    ensures r.Err? <==> AnyStructural(fold, g, finalCheck) || HasCycle(g) || AnyUnordered(g) || (rejectRedundant && AnyRedundant(g))
    ensures r.Err? ==> (d in r.error <==> IsReported(fold, g, finalCheck, rejectRedundant, d))
  {
    RefusedIff(fold, g, finalCheck, rejectRedundant, r);
    WellFormedIff(fold, g, finalCheck);
    if AnyStructural(fold, g, finalCheck) {
      StructuralReportIff(fold, g, finalCheck, d);
    } else if r.Err? {
      LateReportIff(g, rejectRedundant, r, d);
    }
  }

  // ----- the codes of a report

  ghost predicate HasCode(errors: seq<Diagnostic>, code: string) {
    exists d :: d in errors && Code(d) == code
  }

  ghost predicate SameFolding(fold: Fold, nodes: seq<Node>) {
    exists i, j :: 0 <= i < j < |nodes| && fold(nodes[i].name) == fold(nodes[j].name)
  }

  ghost predicate TwoTargets(edges: seq<Edge>) {
    exists e, f :: e in edges && f in edges && e.feedback && f.feedback && e.from == f.from && e.to != f.to
  }

  ghost predicate SameEnds(edges: seq<Edge>) {
    exists i, j :: 0 <= i < j < |edges| && edges[i].from == edges[j].from && edges[i].to == edges[j].to
  }

  /** What each code says about the nodes and edges by themselves. */
  ghost predicate CodeFits(fold: Fold, g: Graph, finalCheck: bool, code: string) {
    || (code == "E001" && finalCheck && g.nodes == [])
    || (code == "E201" && exists n :: n in g.nodes && n.name == "")
    || (code == "E202" && SameFolding(fold, g.nodes))
    || (code == "E203" && exists n :: n in g.nodes && forall c :: c in n.task ==> IsSpace(c))
    || (code == "E204" && exists e :: e in g.edges && (Unknown(g, e.from) || Unknown(g, e.to)))
    || (code == "E205" && exists e :: e in g.edges && e.from == e.to)
    || (code == "E206" && SameEnds(g.edges))
    || (code == "E208" && TwoTargets(g.edges))
  }

  lemma {:induction false} FirstOfName(nodes: seq<Node>, i: nat) returns (k: nat)
    requires i < |nodes|
    ensures k <= i && First(nodes, k) && nodes[k].name == nodes[i].name
  {
    k := i;
    if j: nat :| j < i && nodes[j].name == nodes[i].name {
      k := FirstOfName(nodes, j);
    }
  }

  lemma {:induction false} LastFoldExists(fold: Fold, nodes: seq<Node>, i: nat, j: nat) returns (k: nat)
    requires i < j <= |nodes| && First(nodes, i)
    ensures k < j && LastFold(fold, nodes, k, j, fold(nodes[i].name))
    decreases j - i
  {
    k := i;
    if l: nat :| i < l < j && First(nodes, l) && fold(nodes[l].name) == fold(nodes[i].name) {
      k := LastFoldExists(fold, nodes, l, j);
    }
  }

  /** Two nodes with the same folding are reported, as a repeated name or as a collision. */
  lemma SameFoldingReported(fold: Fold, g: Graph, i: nat, j: nat) returns (d: Diagnostic)
    requires i < j < |g.nodes| && fold(g.nodes[i].name) == fold(g.nodes[j].name)
    ensures IsStructural(fold, g, false, d) && Code(d) == "E202"
  {
    var nodes := g.nodes;
    if nodes[i].name == nodes[j].name {
      d := DuplicateName(nodes[i].name);
    } else {
      var a := FirstOfName(nodes, i);
      var b := FirstOfName(nodes, j);
      assert a != b;
      var early, late := if a < b then a else b, if a < b then b else a;
      var k := LastFoldExists(fold, nodes, early, late);
      assert Collides(fold, nodes, late, nodes[k].name);
      d := CaseCollision(nodes[k].name, nodes[late].name);
    }
  }

  lemma TwoTargetsReported(fold: Fold, g: Graph, e: Edge, f: Edge) returns (d: Diagnostic)
    requires e in g.edges && f in g.edges && e.feedback && f.feedback && e.from == f.from && e.to != f.to
    ensures IsStructural(fold, g, false, d) && Code(d) == "E208"
  {
    var targets := FeedbackTargets(g.edges, e.from);
    forall t
      ensures t in targets <==> Edge(e.from, t, true) in g.edges
    {
      TargetIff(g.edges, e.from, t);
    }
    assert e == Edge(e.from, e.to, true) && f == Edge(e.from, f.to, true);
    assert {e.to, f.to} <= targets;
    Collections.SubsetSize({e.to, f.to}, targets);
    assert |{e.to, f.to}| == 2;
    AscendingSize(Sorted(targets));
    assert forall t :: t in Sorted(targets) <==> t in Elements(Sorted(targets));
    d := ManyFeedbackTargets(e.from, Sorted(targets));
  }

  lemma CodeFitsReported(fold: Fold, g: Graph, finalCheck: bool, code: string) returns (d: Diagnostic)
    requires CodeFits(fold, g, finalCheck, code)
    ensures IsStructural(fold, g, finalCheck, d) && Code(d) == code
  {
    if code == "E001" {
      d := EmptyGraph;
    } else if code == "E201" {
      d := EmptyName;
    } else if code == "E202" {
      var i: nat, j: nat :| i < j < |g.nodes| && fold(g.nodes[i].name) == fold(g.nodes[j].name);
      d := SameFoldingReported(fold, g, i, j);
    } else if code == "E203" {
      var n :| n in g.nodes && forall c :: c in n.task ==> IsSpace(c);
      d := EmptyTask(n.name);
    } else if code == "E204" {
      var e :| e in g.edges && (Unknown(g, e.from) || Unknown(g, e.to));
      d := UnknownEndpoint(e, if !Unknown(g, e.to) then [e.from] else if !Unknown(g, e.from) then [e.to] else [e.from, e.to]);
    } else if code == "E205" {
      var e :| e in g.edges && e.from == e.to;
      d := SelfEdge(e.from);
    } else if code == "E206" {
      var i, j :| 0 <= i < j < |g.edges| && g.edges[i].from == g.edges[j].from && g.edges[i].to == g.edges[j].to;
      d := DuplicateEdge(g.edges[j]);
    } else {
      var e, f :| e in g.edges && f in g.edges && e.feedback && f.feedback && e.from == f.from && e.to != f.to;
      d := TwoTargetsReported(fold, g, e, f);
    }
  }

  lemma ReportedCodeFits(fold: Fold, g: Graph, finalCheck: bool, d: Diagnostic)
    requires IsStructural(fold, g, finalCheck, d)
    ensures CodeFits(fold, g, finalCheck, Code(d))
  {
    match d
    case EmptyGraph =>
    case EmptyName =>
    case DuplicateName(name) =>
      var i, j :| 0 <= i < j < |g.nodes| && g.nodes[i].name == name && g.nodes[j].name == name;
      assert fold(g.nodes[i].name) == fold(g.nodes[j].name);
    case CaseCollision(previous, name) =>
      var j :| Collides(fold, g.nodes, j, previous);
      var i :| LastFold(fold, g.nodes, i, j, fold(g.nodes[j].name));
      assert fold(g.nodes[i].name) == fold(g.nodes[j].name);
    case EmptyTask(name) =>
    case UnknownEndpoint(e, missing) =>
    case SelfEdge(name) =>
    case DuplicateEdge(e) =>
    case ManyFeedbackTargets(name, targets) =>
      assert Less(targets[0], targets[1]);
      LessIrreflexive(targets[0]);
      assert targets[0] in targets && targets[1] in targets;
      var e, f := Edge(name, targets[0], true), Edge(name, targets[1], true);
      assert e in g.edges && f in g.edges;
  }

  lemma ReportCode(g: Graph, c: string, d: Diagnostic)
    requires if c == "E101" then IsCycle(g, d) else if c == "E207" then IsUnordered(g, d) else c == "E209" && IsRedundant(g, d)
    ensures Code(d) == c
  {}

  lemma StageCodes(fold: Fold, g: Graph, finalCheck: bool, rejectRedundant: bool, errors: seq<Diagnostic>, code: string)
    requires Answers(fold, g, finalCheck, rejectRedundant, Err(errors)) && !AnyStructural(fold, g, finalCheck)
    ensures HasCode(errors, code) <==> code == if HasCycle(g) then "E101" else if AnyUnordered(g) then "E207" else "E209"
  {
    var c := if HasCycle(g) then "E101" else if AnyUnordered(g) then "E207" else "E209";
    Refused(fold, g, finalCheck, rejectRedundant, errors);
    forall d | d in errors
      ensures Code(d) == c
    {
      ReportIff(fold, g, finalCheck, rejectRedundant, Err(errors), d);
      ReportCode(g, c, d);
    }
    OneCode(errors, c, code);
  }

  /** Which codes a refusal carries. */
  lemma RefusalCodes(fold: Fold, g: Graph, finalCheck: bool, rejectRedundant: bool, errors: seq<Diagnostic>, code: string)
    requires Answers(fold, g, finalCheck, rejectRedundant, Err(errors))
    ensures AnyStructural(fold, g, finalCheck) ==> (HasCode(errors, code) <==> CodeFits(fold, g, finalCheck, code))
    ensures !AnyStructural(fold, g, finalCheck) && HasCycle(g) ==> (HasCode(errors, code) <==> code == "E101")
    ensures !AnyStructural(fold, g, finalCheck) && !HasCycle(g) ==>
              (HasCode(errors, code) <==> code == if AnyUnordered(g) then "E207" else "E209")
  {
    if AnyStructural(fold, g, finalCheck) {
      forall d
        ensures d in errors <==> IsStructural(fold, g, finalCheck, d)
      {
        ReportIff(fold, g, finalCheck, rejectRedundant, Err(errors), d);
      }
      StructuralCodes(fold, g, finalCheck, errors, code);
    } else {
      StageCodes(fold, g, finalCheck, rejectRedundant, errors, code);
    }
  }

  lemma StructuralCodes(fold: Fold, g: Graph, finalCheck: bool, errors: seq<Diagnostic>, code: string)
    requires forall d :: d in errors <==> IsStructural(fold, g, finalCheck, d)
    ensures HasCode(errors, code) <==> CodeFits(fold, g, finalCheck, code)
  {
    if CodeFits(fold, g, finalCheck, code) {
      var d := CodeFitsReported(fold, g, finalCheck, code);
      assert d in errors;
    }
    if d :| d in errors && Code(d) == code {
      ReportedCodeFits(fold, g, finalCheck, d);
    }
  }

  lemma OneCode(errors: seq<Diagnostic>, c: string, code: string)
    requires errors != [] && forall d :: d in errors ==> Code(d) == c
    ensures HasCode(errors, code) <==> code == c
  {
    assert errors[0] in errors;
  }

  lemma Refused(fold: Fold, g: Graph, finalCheck: bool, rejectRedundant: bool, errors: seq<Diagnostic>)
    requires Answers(fold, g, finalCheck, rejectRedundant, Err(errors))
    ensures errors != []
  {
    StructuralErrorsIff(fold, g, finalCheck);
    RouteErrorsIff(g, |g.edges|);
    if WellFormed(fold, g, finalCheck) && Acyclic(Dependencies(g)) && RoutesOrdered(g, |g.edges|) {
      RedundancyReportIff(g, |g.edges|, errors);
    }
  }

  // ----- the order of a report

  /** What is asked first about a node or an edge: name or ends, then collision or self edge, then task or repetition. */
  function Rank(d: Diagnostic): int {
    match d
    case EmptyName => 0
    case DuplicateName(_) => 1
    case CaseCollision(_, _) => 1
    case EmptyTask(_) => 2
    case UnknownEndpoint(_, _) => 0
    case SelfEdge(_) => 1
    case DuplicateEdge(_) => 2
    case _ => 0
  }

  ghost predicate RisingRanks(listed: seq<Diagnostic>) {
    forall i, j {:trigger Rank(listed[i]), Rank(listed[j])} :: 0 <= i < j < |listed| ==> Rank(listed[i]) < Rank(listed[j])
  }

  /** Place by place, and at each place in the order of the questions; so nothing is reported twice. */
  ghost predicate InTurn(listed: seq<Diagnostic>, at: seq<int>)
    requires |at| == |listed|
  {
    forall i, j {:trigger Rank(listed[i]), Rank(listed[j])} :: 0 <= i < j < |at| ==>
      at[i] < at[j] || (at[i] == at[j] && Rank(listed[i]) < Rank(listed[j]))
  }

  ghost predicate Rising(at: seq<int>) {
    forall i, j :: 0 <= i < j < |at| ==> at[i] < at[j]
  }

  /** Each report is about a node, and the nodes come in order. */
  ghost predicate NodesInTurn(fold: Fold, nodes: seq<Node>, listed: seq<Diagnostic>, at: seq<int>) {
    |at| == |listed| && InTurn(listed, at)
    && forall i :: 0 <= i < |at| ==> 0 <= at[i] < |nodes| && WrongWithNode(fold, nodes, at[i], listed[i])
  }

  ghost predicate EdgesInTurn(names: set<string>, edges: seq<Edge>, listed: seq<Diagnostic>, at: seq<int>) {
    |at| == |listed| && InTurn(listed, at)
    && forall i :: 0 <= i < |at| ==> 0 <= at[i] < |edges| && WrongWithEdge(names, edges, at[i], listed[i])
  }

  ghost predicate SourcesInTurn(listed: seq<Diagnostic>) {
    && (forall i :: 0 <= i < |listed| ==> listed[i].ManyFeedbackTargets?)
    && (forall i, j {:trigger Less(listed[i].name, listed[j].name)} :: 0 <= i < j < |listed| ==> Less(listed[i].name, listed[j].name))
  }

  ghost predicate RoutesInTurn(g: Graph, listed: seq<Diagnostic>, at: seq<int>) {
    && |at| == |listed| && Rising(at)
    && forall i :: 0 <= i < |at| ==> 0 <= at[i] < |g.edges| && listed[i].UnorderedFeedback? && listed[i].edge == g.edges[at[i]]
  }

  /** One more place. */
  lemma InTurnNext(listed: seq<Diagnostic>, at: seq<int>, own: seq<Diagnostic>, n: nat) returns (more: seq<int>)
    requires |at| == |listed| && InTurn(listed, at) && forall i :: 0 <= i < |at| ==> at[i] < n
    requires RisingRanks(own)
    ensures |more| == |listed + own| && InTurn(listed + own, more)
    ensures forall i :: 0 <= i < |more| ==> more[i] == if i < |at| then at[i] else n
  {
    more := at + seq(|own|, _ => n);
    forall i, j | 0 <= i < j < |more|
      ensures more[i] < more[j] || (more[i] == more[j] && Rank((listed + own)[i]) < Rank((listed + own)[j]))
    {
      if i >= |at| {
        assert (listed + own)[i] == own[i - |at|] && (listed + own)[j] == own[j - |at|];
        assert Rank(own[i - |at|]) < Rank(own[j - |at|]);
      } else if j < |at| {
        assert (listed + own)[i] == listed[i] && (listed + own)[j] == listed[j];
        assert at[i] < at[j] || (at[i] == at[j] && Rank(listed[i]) < Rank(listed[j]));
      }
    }
  }

  /** Each report is from the part it is placed at, and the parts come in order. */
  ghost predicate PartsInTurn(parts: seq<seq<Diagnostic>>, listed: seq<Diagnostic>, at: seq<int>) {
    |at| == |listed| && InTurn(listed, at)
    && forall i :: 0 <= i < |at| ==> 0 <= at[i] < |parts| && listed[i] in parts[at[i]]
  }

  lemma PartsNext(parts: seq<seq<Diagnostic>>, listed: seq<Diagnostic>, before: seq<int>, own: seq<Diagnostic>)
    returns (at: seq<int>)
    requires PartsInTurn(parts, listed, before) && RisingRanks(own)
    ensures PartsInTurn(parts + [own], listed + own, at)
  {
    at := InTurnNext(listed, before, own, |parts|);
    forall i | 0 <= i < |at|
      ensures 0 <= at[i] < |parts + [own]| && (listed + own)[i] in (parts + [own])[at[i]]
    {
      if i >= |before| {
        assert (listed + own)[i] == own[i - |before|];
        assert (parts + [own])[|parts|] == own;
      } else {
        assert (listed + own)[i] == listed[i];
        assert (parts + [own])[before[i]] == parts[before[i]];
      }
    }
  }

  lemma {:induction false} FlatInTurn(parts: seq<seq<Diagnostic>>) returns (listed: seq<Diagnostic>, at: seq<int>)
    requires forall i :: 0 <= i < |parts| ==> RisingRanks(parts[i])
    ensures listed == Flat(parts) && PartsInTurn(parts, listed, at)
  {
    listed, at := [], [];
    if parts != [] {
      var first, own := parts[..|parts| - 1], parts[|parts| - 1];
      listed, at := FlatInTurn(first);
      at := PartsNext(first, listed, at, own);
      listed := listed + own;
      assert parts == first + [own];
    }
  }

  lemma NodeErrorsRising(fold: Fold, nodes: seq<Node>, i: nat)
    requires i < |nodes|
    ensures RisingRanks(NodeErrors(fold, nodes, i))
  {}

  lemma EdgeErrorsRising(names: set<string>, edges: seq<Edge>, i: nat)
    requires i < |edges|
    ensures RisingRanks(EdgeErrors(names, edges, i))
  {}

  lemma NodeErrorsInTurn(fold: Fold, nodes: seq<Node>) returns (listed: seq<Diagnostic>, at: seq<int>)
    ensures listed == AllNodeErrors(fold, nodes, |nodes|) && NodesInTurn(fold, nodes, listed, at)
  {
    var parts := NodeParts(fold, nodes);
    forall i: nat | i < |parts|
      ensures RisingRanks(parts[i])
    {
      NodeErrorsRising(fold, nodes, i);
    }
    listed, at := FlatInTurn(parts);
    NodePartsFlat(fold, nodes, |nodes|);
    Collections.TakeAll(parts);
    forall i | 0 <= i < |at|
      ensures 0 <= at[i] < |nodes| && WrongWithNode(fold, nodes, at[i], listed[i])
    {
      NodeErrorIff(fold, nodes, at[i], listed[i]);
    }
  }

  lemma EdgeErrorsInTurn(names: set<string>, edges: seq<Edge>) returns (listed: seq<Diagnostic>, at: seq<int>)
    ensures listed == AllEdgeErrors(names, edges, |edges|) && EdgesInTurn(names, edges, listed, at)
  {
    var parts := EdgeParts(names, edges);
    forall i: nat | i < |parts|
      ensures RisingRanks(parts[i])
    {
      EdgeErrorsRising(names, edges, i);
    }
    listed, at := FlatInTurn(parts);
    EdgePartsFlat(names, edges, |edges|);
    Collections.TakeAll(parts);
    forall i | 0 <= i < |at|
      ensures 0 <= at[i] < |edges| && WrongWithEdge(names, edges, at[i], listed[i])
    {
      EdgeErrorIff(names, edges, at[i], listed[i]);
    }
  }

  lemma LessThanNext(sources: seq<string>, n: nat)
    requires Ascending(sources) && n < |sources|
    ensures forall s :: s in sources[..n] ==> Less(s, sources[n])
  {
    forall s | s in sources[..n]
      ensures Less(s, sources[n])
    {
      var i :| 0 <= i < n && sources[i] == s;
    }
  }

  lemma {:induction false} TargetErrorsInTurn(edges: seq<Edge>, sources: seq<string>, n: nat)
    requires n <= |sources| && Ascending(sources)
    ensures var listed := TargetErrors(edges, sources, n);
            SourcesInTurn(listed) && forall i :: 0 <= i < |listed| ==> listed[i].name in sources[..n]
  {
    if n > 0 {
      TargetErrorsInTurn(edges, sources, n - 1);
      assert sources[..n] == sources[..n - 1] + [sources[n - 1]];
      LessThanNext(sources, n - 1);
    }
  }

  /** An empty graph first; then the nodes, then the edges in the order of the graph; then the feedback sources by name. */
  lemma StructuralInOrder(fold: Fold, g: Graph, finalCheck: bool)
    returns (empty: seq<Diagnostic>, nodes: seq<Diagnostic>, nodesAt: seq<int>, edges: seq<Diagnostic>, edgesAt: seq<int>,
             sources: seq<Diagnostic>)
    ensures StructuralErrors(fold, g, finalCheck) == empty + nodes + edges + sources
    ensures (forall d :: d in empty ==> d == EmptyGraph) && |empty| <= 1
    ensures NodesInTurn(fold, g.nodes, nodes, nodesAt)
    ensures EdgesInTurn(NodeNames(g), g.edges, edges, edgesAt)
    ensures SourcesInTurn(sources)
  {
    empty := if finalCheck && g.nodes == [] then [EmptyGraph] else [];
    nodes, nodesAt := NodeErrorsInTurn(fold, g.nodes);
    edges, edgesAt := EdgeErrorsInTurn(NodeNames(g), g.edges);
    sources := AllTargetErrors(g.edges);
    var names := Sorted(FeedbackSources(g.edges));
    TargetErrorsInTurn(g.edges, names, |names|);
  }

  /** Routes are reported in the order of the graph. */
  lemma {:induction false} RoutesInOrder(g: Graph, n: nat) returns (at: seq<int>)
    requires n <= |g.edges|
    ensures RoutesInTurn(g, RouteErrors(g, n), at) && forall i :: 0 <= i < |at| ==> at[i] < n
  {
    at := [];
    if n > 0 {
      at := RoutesInOrder(g, n - 1);
      if g.edges[n - 1].feedback && !Ordered(g, g.edges[n - 1]) {
        at := at + [n - 1];
      }
    }
  }

  // ----- warnings

  /** What a plan warns of: nodes with the same task, a marker that cannot send feedback, what a route invalidates. */
  ghost predicate IsWarning(g: Graph, w: Warning) {
    match w
    case IdenticalTasks(names) =>
      && Ascending(names) && |names| > 1
      && exists task :: SameTask(g, names, task)
    case UnroutedMarker(name) =>
      && (forall e :: e in g.edges && e.feedback ==> e.from != name)
      && exists n :: n in g.nodes && n.name == name && Mentions(n.task)
    case Invalidation(source, target, invalidated) =>
      && Edge(source, target, true) in g.edges
      && Ascending(invalidated) && forall v :: v in invalidated <==> Reaches(Dependencies(g), target, v)
  }

  ghost predicate SameTask(g: Graph, names: seq<string>, task: string) {
    forall v :: v in names <==> Node(v, task) in g.nodes
  }

  ghost predicate Mentions(task: string) {
    exists i :: MarkerAt(task, i)
  }

  ghost predicate MarkerAt(task: string, i: int) {
    0 <= i <= |task| - 10 && task[i..i + 10] == "<FEEDBACK>"
  }

  lemma MentionsIff(task: string)
    ensures Contains(task, "<FEEDBACK>") <==> Mentions(task)
  {
    if Contains(task, "<FEEDBACK>") {
      var i :| 0 <= i <= |task| && Text.OccursAt(task, i, "<FEEDBACK>");
      assert MarkerAt(task, i);
    }
    if i :| MarkerAt(task, i) {
      assert Text.OccursAt(task, i, "<FEEDBACK>");
    }
  }

  lemma WithTaskIff(nodes: seq<Node>, task: string, v: string)
    ensures v in NamesWithTask(nodes, task) <==> Node(v, task) in nodes
  {
    if v in NamesWithTask(nodes, task) {
      var n :| n in nodes && n.task == task && n.name == v;
      assert n == Node(v, task);
    }
    if Node(v, task) in nodes {
      var n := Node(v, task);
      assert n in nodes && n.task == task && n.name == v;
    }
  }

  lemma {:induction false} TaskWarningIn(nodes: seq<Node>, tasks: seq<string>, n: nat, w: Warning)
    requires n <= |tasks|
    ensures w in TaskWarnings(nodes, tasks, n) <==>
            exists t :: t in tasks[..n] && |NamesWithTask(nodes, t)| > 1 && w == IdenticalTasks(Sorted(NamesWithTask(nodes, t)))
  {
    if n > 0 {
      TaskWarningIn(nodes, tasks, n - 1, w);
      assert tasks[..n] == tasks[..n - 1] + [tasks[n - 1]];
    }
  }

  lemma {:induction false} MarkerWarningIn(g: Graph, n: nat, w: Warning)
    requires n <= |g.nodes|
    ensures w in MarkerWarnings(g, n) <==>
            exists i :: 0 <= i < n && Contains(g.nodes[i].task, "<FEEDBACK>") && !SendsFeedback(g, g.nodes[i].name)
                        && w == UnroutedMarker(g.nodes[i].name)
  {
    if n > 0 {
      MarkerWarningIn(g, n - 1, w);
    }
  }

  lemma {:induction false} InvalidationIn(g: Graph, n: nat, w: Warning)
    requires n <= |g.edges|
    ensures w in InvalidationWarnings(g, n) <==>
            exists i :: 0 <= i < n && g.edges[i].feedback
                        && w == Invalidation(g.edges[i].from, g.edges[i].to, Sorted(Downstream.DownstreamSet(g, g.edges[i].to)))
  {
    if n > 0 {
      InvalidationIn(g, n - 1, w);
    }
  }

  lemma ListedWithTask(g: Graph, names: seq<string>, task: string)
    requires Ascending(names)
    ensures SameTask(g, names, task) <==> names == Sorted(NamesWithTask(g.nodes, task))
  {
    SortedIs(NamesWithTask(g.nodes, task), names);
    forall v
      ensures v in NamesWithTask(g.nodes, task) <==> Node(v, task) in g.nodes
    {
      WithTaskIff(g.nodes, task, v);
    }
  }

  lemma TaskWarningIff(g: Graph, w: Warning)
    ensures var tasks := Sorted(TasksOf(g.nodes));
            w in TaskWarnings(g.nodes, tasks, |tasks|) <==> w.IdenticalTasks? && IsWarning(g, w)
  {
    var tasks := Sorted(TasksOf(g.nodes));
    TaskWarningIn(g.nodes, tasks, |tasks|, w);
    assert tasks[..|tasks|] == tasks;
    assert forall t :: t in tasks <==> t in Elements(tasks);
    if t :| t in tasks && |NamesWithTask(g.nodes, t)| > 1 && w == IdenticalTasks(Sorted(NamesWithTask(g.nodes, t))) {
      ListedWithTask(g, w.names, t);
      AscendingSize(w.names);
    }
    if w.IdenticalTasks? && IsWarning(g, w) {
      var t :| SameTask(g, w.names, t);
      ListedWithTask(g, w.names, t);
      AscendingSize(w.names);
      assert w.names[0] in w.names;
      var n := Node(w.names[0], t);
      assert n in g.nodes && n.task == t;
      assert t in TasksOf(g.nodes);
    }
  }

  lemma MarkerWarningIff(g: Graph, w: Warning)
    ensures w in MarkerWarnings(g, |g.nodes|) <==> w.UnroutedMarker? && IsWarning(g, w)
  {
    MarkerWarningIn(g, |g.nodes|, w);
    if i :| 0 <= i < |g.nodes| && Contains(g.nodes[i].task, "<FEEDBACK>") && !SendsFeedback(g, g.nodes[i].name)
            && w == UnroutedMarker(g.nodes[i].name) {
      MentionsIff(g.nodes[i].task);
    }
    if w.UnroutedMarker? && IsWarning(g, w) {
      var n :| n in g.nodes && n.name == w.name && Mentions(n.task);
      var i :| 0 <= i < |g.nodes| && g.nodes[i] == n;
      MentionsIff(n.task);
    }
  }

  lemma InvalidationIff(g: Graph, w: Warning)
    ensures w in InvalidationWarnings(g, |g.edges|) <==> w.Invalidation? && IsWarning(g, w)
  {
    InvalidationIn(g, |g.edges|, w);
    if w.Invalidation? {
      DownstreamListed(g, w.target, w.invalidated);
      if IsWarning(g, w) {
        var i :| 0 <= i < |g.edges| && g.edges[i] == Edge(w.source, w.target, true);
      }
      if i :| 0 <= i < |g.edges| && g.edges[i].feedback
              && w == Invalidation(g.edges[i].from, g.edges[i].to, Sorted(Downstream.DownstreamSet(g, g.edges[i].to))) {
        assert g.edges[i] == Edge(w.source, w.target, true);
      }
    }
  }

  /** A plan warns of exactly these things. */
  lemma WarningIff(fold: Fold, g: Graph, finalCheck: bool, rejectRedundant: bool, p: Plan, w: Warning)
    requires Answers(fold, g, finalCheck, rejectRedundant, Ok(p))
    ensures w in p.warnings <==> IsWarning(g, w)
  {
    TaskWarningIff(g, w);
    MarkerWarningIff(g, w);
    InvalidationIff(g, w);
  }

  ghost predicate SharedInTurn(g: Graph, listed: seq<Warning>, tasks: seq<string>) {
    && |tasks| == |listed| && Ascending(tasks)
    && forall i :: 0 <= i < |listed| ==> listed[i].IdenticalTasks? && SameTask(g, listed[i].names, tasks[i])
  }

  ghost predicate MarkersInTurn(g: Graph, listed: seq<Warning>, at: seq<int>) {
    && |at| == |listed| && Rising(at)
    && forall i :: 0 <= i < |at| ==> 0 <= at[i] < |g.nodes| && listed[i] == UnroutedMarker(g.nodes[at[i]].name)
  }

  ghost predicate InvalidationsInTurn(g: Graph, listed: seq<Warning>, at: seq<int>) {
    && |at| == |listed| && Rising(at)
    && forall i :: 0 <= i < |at| ==>
         && 0 <= at[i] < |g.edges| && listed[i].Invalidation?
         && listed[i].source == g.edges[at[i]].from && listed[i].target == g.edges[at[i]].to
  }

  lemma {:induction false} SharedInOrder(g: Graph, tasks: seq<string>, n: nat) returns (shared: seq<string>)
    requires n <= |tasks| && Ascending(tasks)
    ensures SharedInTurn(g, TaskWarnings(g.nodes, tasks, n), shared)
    ensures forall t :: t in shared ==> t in tasks[..n]
  {
    shared := [];
    if n > 0 {
      shared := SharedInOrder(g, tasks, n - 1);
      assert tasks[..n] == tasks[..n - 1] + [tasks[n - 1]];
      LessThanNext(tasks, n - 1);
      var names := NamesWithTask(g.nodes, tasks[n - 1]);
      if |names| > 1 {
        ListedWithTask(g, Sorted(names), tasks[n - 1]);
        forall t | t in shared
          ensures Less(t, tasks[n - 1])
        {
        }
        shared := shared + [tasks[n - 1]];
      }
    }
  }

  lemma {:induction false} MarkersInOrder(g: Graph, n: nat) returns (at: seq<int>)
    requires n <= |g.nodes|
    ensures MarkersInTurn(g, MarkerWarnings(g, n), at) && forall i :: 0 <= i < |at| ==> at[i] < n
  {
    at := [];
    if n > 0 {
      at := MarkersInOrder(g, n - 1);
      if Contains(g.nodes[n - 1].task, "<FEEDBACK>") && !SendsFeedback(g, g.nodes[n - 1].name) {
        at := at + [n - 1];
      }
    }
  }

  lemma {:induction false} InvalidationsInOrder(g: Graph, n: nat) returns (at: seq<int>)
    requires n <= |g.edges|
    ensures InvalidationsInTurn(g, InvalidationWarnings(g, n), at) && forall i :: 0 <= i < |at| ==> at[i] < n
  {
    at := [];
    if n > 0 {
      at := InvalidationsInOrder(g, n - 1);
      if g.edges[n - 1].feedback {
        at := at + [n - 1];
      }
    }
  }

  /** Shared tasks first, in the order of their text; then nodes, then routes, in the order of the graph; each once. */
  lemma WarningsInOrder(fold: Fold, g: Graph, finalCheck: bool, rejectRedundant: bool, p: Plan)
    returns (shared: seq<Warning>, tasks: seq<string>, markers: seq<Warning>, nodesAt: seq<int>, routes: seq<Warning>, edgesAt: seq<int>)
    requires Answers(fold, g, finalCheck, rejectRedundant, Ok(p))
    ensures p.warnings == shared + markers + routes
    ensures SharedInTurn(g, shared, tasks) && MarkersInTurn(g, markers, nodesAt) && InvalidationsInTurn(g, routes, edgesAt)
  {
    var all := Sorted(TasksOf(g.nodes));
    shared, markers, routes := TaskWarnings(g.nodes, all, |all|), MarkerWarnings(g, |g.nodes|), InvalidationWarnings(g, |g.edges|);
    tasks := SharedInOrder(g, all, |all|);
    nodesAt := MarkersInOrder(g, |g.nodes|);
    edgesAt := InvalidationsInOrder(g, |g.edges|);
  }

  // ----- the plan

  /** Terminals are the nodes that nothing depends on, roots the nodes that depend on nothing. */
  lemma PlanEnds(fold: Fold, g: Graph, finalCheck: bool, rejectRedundant: bool, p: Plan, v: string)
    requires Answers(fold, g, finalCheck, rejectRedundant, Ok(p))
    ensures Ascending(p.terminals) && Ascending(p.roots)
    ensures v in p.terminals <==> v in NodeNames(g) && Downstream.DownstreamSet(g, v) == {v}
    ensures v in p.terminals <==> v in NodeNames(g) && forall e :: e in g.edges && !e.feedback ==> e.from != v
    ensures v in p.roots <==> v in NodeNames(g) && forall u :: v in Downstream.DownstreamSet(g, u) ==> u == v
    ensures v in p.roots <==> v in NodeNames(g) && forall e :: e in g.edges && !e.feedback ==> e.to != v
  {
    var d, names := Dependencies(g), NodeNames(g);
    assert v in p.terminals <==> v in Elements(p.terminals);
    assert v in p.roots <==> v in Elements(p.roots);
    if v in names {
      TerminalIff(g, v);
      RootIff(g, v);
    }
  }

  lemma TerminalIff(g: Graph, v: string)
    requires Acyclic(Dependencies(g)) && v in NodeNames(g)
    ensures v in Layering.Terminals(Dependencies(g), NodeNames(g)) <==> Downstream.DownstreamSet(g, v) == {v}
    ensures v in Layering.Terminals(Dependencies(g), NodeNames(g)) <==> forall e :: e in g.edges && !e.feedback ==> e.from != v
  {
    var d := Dependencies(g);
    Downstream.DownstreamIffReaches(g, v, v);
    ReachesSelf(d, v);
    if forall a :: a in d ==> a.0 != v {
      forall w | w in Downstream.DownstreamSet(g, v)
        ensures w == v
      {
        Downstream.DownstreamIffReaches(g, v, w);
        ReachesSplit(d, v, w);
        if w != v {
          Reduction.FirstArc(d, v, w);
        }
      }
      forall e | e in g.edges && !e.feedback
        ensures e.from != v
      {
        DependencyIff(g, e.from, e.to);
        assert e == Edge(e.from, e.to, false);
      }
    } else {
      var a :| a in d && a.0 == v;
      DependencyIff(g, v, a.1);
      ArcFollows(d, v, a.1);
      Downstream.DownstreamIffReaches(g, v, a.1);
      assert Edge(v, a.1, false) in g.edges;
      assert a.1 != v;
    }
  }

  lemma RootIff(g: Graph, v: string)
    requires Acyclic(Dependencies(g)) && v in NodeNames(g)
    ensures v in Layering.Roots(Dependencies(g), NodeNames(g)) <==> forall u :: v in Downstream.DownstreamSet(g, u) ==> u == v
    ensures v in Layering.Roots(Dependencies(g), NodeNames(g)) <==> forall e :: e in g.edges && !e.feedback ==> e.to != v
  {
    var d := Dependencies(g);
    if Predecessors(d, v) == {} {
      forall u | v in Downstream.DownstreamSet(g, u)
        ensures u == v
      {
        Downstream.DownstreamIffReaches(g, u, v);
        ReachesSplit(d, u, v);
        if u != v {
          FollowsLastArc(d, u, v);
          var w :| (w, v) in d;
          PredecessorIff(d, w, v);
        }
      }
      forall e | e in g.edges && !e.feedback
        ensures e.to != v
      {
        DependencyIff(g, e.from, e.to);
        assert e == Edge(e.from, e.to, false);
        PredecessorIff(d, e.from, v);
      }
    } else {
      var u :| u in Predecessors(d, v);
      PredecessorIff(d, u, v);
      DependencyIff(g, u, v);
      ArcFollows(d, u, v);
      Downstream.DownstreamIffReaches(g, u, v);
      assert Edge(u, v, false) in g.edges;
      assert u != v;
    }
  }

  lemma {:induction false} ToTerminal(g: Graph, p: seq<string>) returns (t: string)
    requires Acyclic(Dependencies(g)) && EdgesWellFormed(NodeNames(g), g.edges)
    requires Path(Dependencies(g), p) && p[|p| - 1] in NodeNames(g)
    ensures t in Layering.Terminals(Dependencies(g), NodeNames(g)) && Reaches(Dependencies(g), p[0], t)
    decreases |Ends(Dependencies(g))| + 1 - |p|
  {
    var d := Dependencies(g);
    t := p[|p| - 1];
    if a :| a in d && a.0 == t {
      Extend(d, p, a.1);
      Reduction.PathBound(d, p + [a.1]);
      EndsKnown(g);
      ArcEnds(d, a.0, a.1);
      t := ToTerminal(g, p + [a.1]);
    } else {
      assert PathBetween(d, p, p[0], t);
    }
  }

  lemma {:induction false} ToRoot(g: Graph, p: seq<string>) returns (r: string)
    requires Acyclic(Dependencies(g)) && EdgesWellFormed(NodeNames(g), g.edges)
    requires Path(Dependencies(g), p) && p[0] in NodeNames(g)
    ensures r in Layering.Roots(Dependencies(g), NodeNames(g)) && Reaches(Dependencies(g), r, p[|p| - 1])
    decreases |Ends(Dependencies(g))| + 1 - |p|
  {
    var d := Dependencies(g);
    r := p[0];
    if u :| u in Predecessors(d, r) {
      PredecessorIff(d, u, r);
      Prepend(d, u, p);
      Reduction.PathBound(d, [u] + p);
      EndsKnown(g);
      ArcEnds(d, u, r);
      r := ToRoot(g, [u] + p);
    } else {
      assert PathBetween(d, p, r, p[|p| - 1]);
    }
  }

  /** Every node comes after a root, or is one, and before a terminal, or is one. */
  lemma EveryNodeBetween(fold: Fold, g: Graph, finalCheck: bool, rejectRedundant: bool, p: Plan, v: string)
    requires Answers(fold, g, finalCheck, rejectRedundant, Ok(p)) && v in NodeNames(g)
    ensures exists t :: t in p.terminals && t in Downstream.DownstreamSet(g, v)
    ensures exists r :: r in p.roots && v in Downstream.DownstreamSet(g, r)
  {
    assert Path(Dependencies(g), [v]);
    var t := ToTerminal(g, [v]);
    Downstream.DownstreamIffReaches(g, v, t);
    assert t in Elements(p.terminals);
    var r := ToRoot(g, [v]);
    Downstream.DownstreamIffReaches(g, r, v);
    assert r in Elements(p.roots);
  }

  /** Every node is in exactly one batch. Its dependencies are in earlier ones, and one of them is in the batch
      just before it, unless it is in the first; so no node waits longer than it must. */
  lemma PlanBatches(fold: Fold, g: Graph, finalCheck: bool, rejectRedundant: bool, p: Plan, v: string)
    requires Answers(fold, g, finalCheck, rejectRedundant, Ok(p)) && v in NodeNames(g)
    ensures exists k :: 0 <= k < |p.batches| && v in p.batches[k] && BatchOf(g, p, v, k)
    ensures forall k :: 0 <= k < |p.batches| ==> Ascending(p.batches[k]) && p.batches[k] != []
    ensures forall k, u :: 0 <= k < |p.batches| && u in p.batches[k] ==> u in NodeNames(g)
  {
    var k := OneBatch(g, p, v);
    BatchIs(g, p, v, k);
  }

  lemma OneBatch(g: Graph, p: Plan, v: string) returns (k: nat)
    requires IsOrder(g, p) && v in NodeNames(g)
    ensures k < |p.batches| && v in p.batches[k]
    ensures forall j :: 0 <= j < |p.batches| && v in p.batches[j] ==> j == k
  {
    assert Layering.Placed(p.batches, v);
    k :| 0 <= k < |p.batches| && v in p.batches[k];
    forall j | 0 <= j < |p.batches| && v in p.batches[j]
      ensures j == k
    {
      Layering.DepthUnique(Dependencies(g), v, j, k);
    }
  }

  lemma BatchIs(g: Graph, p: Plan, v: string, k: nat)
    requires EdgesWellFormed(NodeNames(g), g.edges) && IsOrder(g, p) && k < |p.batches| && v in p.batches[k]
    requires forall j :: 0 <= j < |p.batches| && v in p.batches[j] ==> j == k
    ensures BatchOf(g, p, v, k)
  {
    forall u | Edge(u, v, false) in g.edges
      ensures Earlier(p, u, k)
    {
      EarlierBatch(g, p, u, v, k);
    }
    if k > 0 {
      JustBefore(g, p, v, k);
    }
  }

  ghost predicate Earlier(p: Plan, u: string, k: int) {
    exists j :: 0 <= j < k && j < |p.batches| && u in p.batches[j]
  }

  ghost predicate BatchOf(g: Graph, p: Plan, v: string, k: int)
    requires 0 <= k < |p.batches|
  {
    && (forall j :: 0 <= j < |p.batches| && v in p.batches[j] ==> j == k)
    && (forall u :: Edge(u, v, false) in g.edges ==> Earlier(p, u, k))
    && (k > 0 ==> exists u :: u in p.batches[k - 1] && Edge(u, v, false) in g.edges)
  }

  lemma EarlierBatch(g: Graph, p: Plan, u: string, v: string, k: nat)
    requires EdgesWellFormed(NodeNames(g), g.edges) && IsOrder(g, p)
    requires k < |p.batches| && v in p.batches[k] && Edge(u, v, false) in g.edges
    ensures Earlier(p, u, k)
  {
    var d := Dependencies(g);
    DependencyIff(g, u, v);
    EndsKnown(g);
    ArcEnds(d, u, v);
    assert Layering.Placed(p.batches, u);
    var j :| 0 <= j < |p.batches| && u in p.batches[j];
    Layering.DependenciesComeFirst(d, NodeNames(g), p.batches, j, k, u, v);
  }

  lemma JustBefore(g: Graph, p: Plan, v: string, k: nat)
    requires EdgesWellFormed(NodeNames(g), g.edges) && IsOrder(g, p)
    requires 0 < k < |p.batches| && v in p.batches[k]
    ensures exists u :: u in p.batches[k - 1] && Edge(u, v, false) in g.edges
  {
    var d := Dependencies(g);
    assert Layering.Depth(d, v, k);
    var u := DepthBefore(d, v, k);
    DependencyIff(g, u, v);
    EndsKnown(g);
    ArcEnds(d, u, v);
    Layering.LayeredPlace(d, NodeNames(g), p.batches, u, k - 1);
  }

  /** The last but one node of a longest path. */
  lemma DepthBefore(d: set<Arc>, v: string, k: nat) returns (u: string)
    requires k > 0 && Layering.Depth(d, v, k)
    ensures (u, v) in d && Layering.Depth(d, u, k - 1)
  {
    var q :| Layering.EndsAt(d, q, v) && |q| == k + 1;
    u := q[k - 1];
    assert Step(d, q, k - 1);
    Slice(d, q, 0, k);
    assert Layering.EndsAt(d, q[0..k], u);
    forall r | Layering.EndsAt(d, r, u)
      ensures |r| <= k
    {
      Extend(d, r, v);
      assert Layering.EndsAt(d, r + [v], v);
    }
  }
}
