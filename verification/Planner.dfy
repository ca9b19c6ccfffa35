/** The planner's graph edits: batches, the compiler-gated commit, and the topology it answers with. */
module Planner {
  import opened Wrappers
  import opened Names
  import opened Paths
  import opened Collections
  import opened Model
  import Compiler
  import Layering

  datatype NodeEdit = NodeEdit(name: string, task: Option<string>, delete: bool)

  datatype EdgeEdit = EdgeEdit(from: string, to: string, feedback: bool, delete: bool)

  function Pair(e: EdgeEdit): Arc {
    (e.from, e.to)
  }

  // ----- one edit

  function OtherNodes(nodes: seq<Node>, name: string): seq<Node> {
    if nodes == [] then []
    else (if nodes[0].name != name then [nodes[0]] else []) + OtherNodes(nodes[1..], name)
  }

  function DetachedEdges(edges: seq<Edge>, name: string): seq<Edge> {
    if edges == [] then []
    else (if edges[0].from != name && edges[0].to != name then [edges[0]] else []) + DetachedEdges(edges[1..], name)
  }

  function OtherEdges(edges: seq<Edge>, pair: Arc): seq<Edge> {
    if edges == [] then []
    else (if (edges[0].from, edges[0].to) != pair then [edges[0]] else []) + OtherEdges(edges[1..], pair)
  }

  function TaskOf(e: NodeEdit): string {
    match e.task case Some(t) => t case None => ""
  }

  function AfterNode(g: Graph, e: NodeEdit): Graph {
    if e.delete then
      g.(nodes := OtherNodes(g.nodes, e.name), edges := DetachedEdges(g.edges, e.name))
    else
      g.(nodes := OtherNodes(g.nodes, e.name) + [Node(e.name, TaskOf(e))])
  }

  function AfterEdge(g: Graph, e: EdgeEdit): Graph {
    g.(edges := OtherEdges(g.edges, Pair(e)) + (if e.delete then [] else [Edge(e.from, e.to, e.feedback)]))
  }

  function AfterNodes(g: Graph, edits: seq<NodeEdit>): Graph {
    if edits == [] then g else AfterNode(AfterNodes(g, edits[..|edits| - 1]), edits[|edits| - 1])
  }

  function AfterEdges(g: Graph, edits: seq<EdgeEdit>): Graph {
    if edits == [] then g else AfterEdge(AfterEdges(g, edits[..|edits| - 1]), edits[|edits| - 1])
  }

  /** The candidate graph an edit tool works on; its fields are replaced in place. */
  class Draft {
    var goal: string
    var nodes: seq<Node>
    var edges: seq<Edge>

    constructor (g: Graph)
      ensures Value() == g
    {
      goal, nodes, edges := g.goal, g.nodes, g.edges;
    }

    function Value(): Graph
      reads this
    {
      Graph(goal, nodes, edges)
    }

    method ApplyNode(e: NodeEdit)
      modifies this
      ensures Value() == AfterNode(old(Value()), e)
    {
      nodes := OtherNodes(nodes, e.name);
      if e.delete {
        edges := DetachedEdges(edges, e.name);
      } else {
        nodes := nodes + [Node(e.name, TaskOf(e))];
      }
    }

    method ApplyEdge(e: EdgeEdit)
      modifies this
      ensures Value() == AfterEdge(old(Value()), e)
    {
      edges := OtherEdges(edges, Pair(e));
      if !e.delete {
        edges := edges + [Edge(e.from, e.to, e.feedback)];
      }
    }

    method ApplyNodes(edits: seq<NodeEdit>)
      modifies this
      ensures Value() == AfterNodes(old(Value()), edits)
    {
      for i := 0 to |edits|
        invariant Value() == AfterNodes(old(Value()), edits[..i])
      {
        assert edits[..i + 1][..i] == edits[..i];
        ApplyNode(edits[i]);
      }
      assert edits[..|edits|] == edits;
    }

    method ApplyEdges(edits: seq<EdgeEdit>)
      modifies this
      ensures Value() == AfterEdges(old(Value()), edits)
    {
      for i := 0 to |edits|
        invariant Value() == AfterEdges(old(Value()), edits[..i])
      {
        assert edits[..i + 1][..i] == edits[..i];
        ApplyEdge(edits[i]);
      }
      assert edits[..|edits|] == edits;
    }
  }

  // ----- repeated targets

  /** A repeated target and the position it was first given at. */
  datatype Repeat = Repeat(index: nat, first: nat)

  ghost predicate IsFirst<T>(targets: seq<T>, i: nat, target: T) {
    i < |targets| && targets[i] == target && forall j :: 0 <= j < i ==> targets[j] != target
  }

  ghost predicate IndexedBefore<T>(targets: seq<T>, i: nat, firstIndex: map<T, nat>)
    requires i <= |targets|
  {
    && (forall t :: t in firstIndex ==> firstIndex[t] < i && IsFirst(targets, firstIndex[t], t))
    && forall j :: 0 <= j < i ==> targets[j] in firstIndex
  }

  ghost predicate ReportedAt(repeats: seq<Repeat>, j: nat) {
    exists r :: r in repeats && r.index == j
  }

  /** The positions before `i` whose target was given before. */
  ghost function Repetitions<T>(targets: seq<T>, i: nat): set<nat>
    requires i <= |targets|
  {
    set k: nat | k < i && targets[k] in targets[..k]
  }

  lemma RepetitionsNext<T>(targets: seq<T>, i: nat)
    requires i < |targets|
    ensures Repetitions(targets, i + 1) == Repetitions(targets, i) + (if targets[i] in targets[..i] then {i} else {})
    ensures |Repetitions(targets, i + 1)| == |Repetitions(targets, i)| + (if targets[i] in targets[..i] then 1 else 0)
  {
    assert Repetitions(targets, i + 1) == Repetitions(targets, i) + (if targets[i] in targets[..i] then {i} else {});
  }

  /** Every report is of a target given before, with its first position. */
  ghost predicate ReportsTrue<T>(targets: seq<T>, i: nat, repeats: seq<Repeat>)
    requires i <= |targets|
  {
    forall r :: r in repeats ==> r.index < i && r.first < r.index && IsFirst(targets, r.first, targets[r.index])
  }

  ghost predicate ReportsAll<T>(targets: seq<T>, i: nat, repeats: seq<Repeat>)
    requires i <= |targets|
  {
    forall j, k: nat :: 0 <= j < k < i && targets[j] == targets[k] ==> ReportedAt(repeats, k)
  }

  ghost predicate Increasing(repeats: seq<Repeat>) {
    forall a, b :: 0 <= a < b < |repeats| ==> repeats[a].index < repeats[b].index
  }

  /** Every target given before is reported, once, at its position and with its first one. */
  ghost predicate ReportedBefore<T>(targets: seq<T>, i: nat, repeats: seq<Repeat>)
    requires i <= |targets|
  {
    && ReportsTrue(targets, i, repeats) && ReportsAll(targets, i, repeats) && Increasing(repeats)
    && |repeats| == |Repetitions(targets, i)|
  }

  lemma IndexedIff<T>(targets: seq<T>, i: nat, firstIndex: map<T, nat>)
    requires i < |targets| && IndexedBefore(targets, i, firstIndex)
    ensures targets[i] in firstIndex <==> targets[i] in targets[..i]
  {
    if targets[i] in firstIndex {
      assert targets[..i][firstIndex[targets[i]]] == targets[i];
    }
  }

  lemma ReportsAllNext<T>(targets: seq<T>, i: nat, repeats: seq<Repeat>, report: Repeat)
    requires i < |targets| && ReportsAll(targets, i, repeats) && report.index == i
    ensures ReportsAll(targets, i + 1, repeats + [report])
  {
    forall j, k: nat | 0 <= j < k < i + 1 && targets[j] == targets[k]
      ensures ReportedAt(repeats + [report], k)
    {
      if k == i {
        assert report in repeats + [report];
      } else {
        var r :| r in repeats && r.index == k;
        assert r in repeats + [report];
      }
    }
  }

  lemma IncreasingNext<T>(targets: seq<T>, repeats: seq<Repeat>, report: Repeat)
    requires report.index < |targets| && Increasing(repeats) && ReportsTrue(targets, report.index, repeats)
    ensures Increasing(repeats + [report])
  {
    forall a | 0 <= a < |repeats|
      ensures repeats[a].index < report.index
    {
      assert repeats[a] in repeats;
    }
  }

  lemma ReportsTrueNext<T>(targets: seq<T>, i: nat, repeats: seq<Repeat>, report: Repeat)
    requires i < |targets| && ReportsTrue(targets, i, repeats)
    requires report.index == i && report.first < i && IsFirst(targets, report.first, targets[i])
    ensures ReportsTrue(targets, i + 1, repeats + [report])
  {
    forall r | r in repeats + [report]
      ensures r in repeats || r == report
    {
    }
  }

  lemma ReportedNext<T>(targets: seq<T>, i: nat, repeats: seq<Repeat>, report: Repeat)
    requires i < |targets| && ReportedBefore(targets, i, repeats)
    requires report.index == i && report.first < i && IsFirst(targets, report.first, targets[i])
    ensures ReportedBefore(targets, i + 1, repeats + [report])
  {
    assert targets[..i][report.first] == targets[i];
    RepetitionsNext(targets, i);
    ReportsTrueNext(targets, i, repeats, report);
    ReportsAllNext(targets, i, repeats, report);
    IncreasingNext(targets, repeats, report);
  }

  lemma UnreportedNext<T>(targets: seq<T>, i: nat, repeats: seq<Repeat>)
    requires i < |targets| && ReportedBefore(targets, i, repeats) && targets[i] !in targets[..i]
    ensures ReportedBefore(targets, i + 1, repeats)
  {
    RepetitionsNext(targets, i);
    forall j: nat | j < i
      ensures targets[j] != targets[i]
    {
      assert targets[..i][j] == targets[j];
    }
  }

  lemma IndexedNext<T>(targets: seq<T>, i: nat, firstIndex: map<T, nat>)
    requires i < |targets| && IndexedBefore(targets, i, firstIndex)
    ensures if targets[i] in firstIndex then IndexedBefore(targets, i + 1, firstIndex)
            else IndexedBefore(targets, i + 1, firstIndex[targets[i] := i])
  {}

  /** `duplicateTargets`: one report for every target given before, with its first position. */
  method DuplicateTargets<T(==)>(targets: seq<T>) returns (repeats: seq<Repeat>)
    ensures repeats == [] <==> Distinct(targets)
    ensures ReportedBefore(targets, |targets|, repeats)
  {
    var firstIndex: map<T, nat> := map[];
    repeats := [];
    assert Repetitions(targets, 0) == {};
    for i := 0 to |targets|
      invariant IndexedBefore(targets, i, firstIndex) && ReportedBefore(targets, i, repeats)
    {
      IndexedIff(targets, i, firstIndex);
      IndexedNext(targets, i, firstIndex);
      if targets[i] in firstIndex {
        var report := Repeat(i, firstIndex[targets[i]]);
        ReportedNext(targets, i, repeats, report);
        repeats := repeats + [report];
      } else {
        UnreportedNext(targets, i, repeats);
        firstIndex := firstIndex[targets[i] := i];
      }
    }
    NoneReportedIff(targets, repeats);
  }

  lemma NoneReportedIff<T>(targets: seq<T>, repeats: seq<Repeat>)
    requires ReportedBefore(targets, |targets|, repeats)
    ensures repeats == [] <==> Distinct(targets)
  {
    if repeats != [] {
      var r := repeats[0];
      assert r in repeats;
      assert targets[r.first] == targets[r.index];
    }
  }

  // ----- batches

  lemma {:induction false} OtherNodesIff(nodes: seq<Node>, name: string)
    ensures forall n :: n in OtherNodes(nodes, name) <==> n in nodes && n.name != name
  {
    if nodes != [] {
      OtherNodesIff(nodes[1..], name);
      assert nodes == [nodes[0]] + nodes[1..];
    }
  }

  lemma {:induction false} DetachedEdgesIff(edges: seq<Edge>, name: string)
    ensures forall e :: e in DetachedEdges(edges, name) <==> e in edges && e.from != name && e.to != name
  {
    if edges != [] {
      DetachedEdgesIff(edges[1..], name);
      assert edges == [edges[0]] + edges[1..];
    }
  }

  lemma {:induction false} OtherEdgesIff(edges: seq<Edge>, pair: Arc)
    ensures forall e :: e in OtherEdges(edges, pair) <==> e in edges && (e.from, e.to) != pair
  {
    if edges != [] {
      OtherEdgesIff(edges[1..], pair);
      assert edges == [edges[0]] + edges[1..];
    }
  }

  ghost predicate Targets(edits: seq<NodeEdit>, name: string) {
    exists e :: e in edits && e.name == name
  }

  ghost predicate Creates(edits: seq<NodeEdit>, n: Node) {
    exists e :: e in edits && !e.delete && n == Node(e.name, TaskOf(e))
  }

  ghost predicate Deletes(edits: seq<NodeEdit>, name: string) {
    exists e :: e in edits && e.delete && e.name == name
  }

  ghost function NodeTargets(edits: seq<NodeEdit>): seq<string> {
    seq(|edits|, i requires 0 <= i < |edits| => edits[i].name)
  }

  ghost function EdgeTargets(edits: seq<EdgeEdit>): seq<Arc> {
    seq(|edits|, i requires 0 <= i < |edits| => Pair(edits[i]))
  }

  /** What a batch of node edits with different targets leaves: untouched nodes and created ones, and
      the edges of no deleted node. */
  lemma {:induction false} NodeBatch(g: Graph, edits: seq<NodeEdit>)
    requires Distinct(NodeTargets(edits))
    ensures forall n :: n in AfterNodes(g, edits).nodes <==>
      (n in g.nodes && !Targets(edits, n.name)) || Creates(edits, n)
    ensures forall e :: e in AfterNodes(g, edits).edges <==>
      e in g.edges && !Deletes(edits, e.from) && !Deletes(edits, e.to)
  {
    if edits != [] {
      var init, last := edits[..|edits| - 1], edits[|edits| - 1];
      assert edits == init + [last];
      assert forall i :: 0 <= i < |init| ==> NodeTargets(edits)[i] == NodeTargets(init)[i];
      NodeBatch(g, init);
      NodeBatchStep(AfterNodes(g, init), last);
      LastIsNew(init, last);
      forall n
        ensures Creates(edits, n) <==> Creates(init, n) || (!last.delete && n == Node(last.name, TaskOf(last)))
        ensures Creates(init, n) ==> n.name != last.name
      {
      }
    }
  }

  lemma LastIsNew(init: seq<NodeEdit>, last: NodeEdit)
    requires Distinct(NodeTargets(init + [last]))
    ensures forall e :: e in init ==> e.name != last.name
  {
    var all := init + [last];
    forall e | e in init
      ensures e.name != last.name
    {
      var i :| 0 <= i < |init| && init[i] == e;
      assert NodeTargets(all)[i] == e.name && NodeTargets(all)[|init|] == last.name;
    }
  }

  lemma NodeBatchStep(g: Graph, e: NodeEdit)
    ensures forall n :: n in AfterNode(g, e).nodes <==>
      (n in g.nodes && n.name != e.name) || (!e.delete && n == Node(e.name, TaskOf(e)))
    ensures forall f :: f in AfterNode(g, e).edges <==>
      f in g.edges && (e.delete ==> f.from != e.name && f.to != e.name)
  {
    OtherNodesIff(g.nodes, e.name);
    DetachedEdgesIff(g.edges, e.name);
  }

  /** After one node edit its name stands for the given node, once, or for none; a deletion takes the edges at that name,
      and all else occurs as often as before. */
  lemma NodeEditLeaves(g: Graph, e: NodeEdit, n: Node, f: Edge)
    ensures multiset(AfterNode(g, e).nodes)[n] ==
            (if n.name != e.name then multiset(g.nodes)[n] else if !e.delete && n.task == TaskOf(e) then 1 else 0)
    ensures multiset(AfterNode(g, e).edges)[f] ==
            (if e.delete && (f.from == e.name || f.to == e.name) then 0 else multiset(g.edges)[f])
  {
    OtherNodesCount(g.nodes, e.name);
    DetachedEdgesCount(g.edges, e.name);
  }

  lemma {:induction false} OtherNodesCount(nodes: seq<Node>, name: string)
    ensures forall n :: multiset(OtherNodes(nodes, name))[n] == if n.name != name then multiset(nodes)[n] else 0
  {
    if nodes != [] {
      OtherNodesCount(nodes[1..], name);
      assert nodes == [nodes[0]] + nodes[1..];
    }
  }

  lemma {:induction false} DetachedEdgesCount(edges: seq<Edge>, name: string)
    ensures forall e ::
      multiset(DetachedEdges(edges, name))[e] == if e.from != name && e.to != name then multiset(edges)[e] else 0
  {
    if edges != [] {
      DetachedEdgesCount(edges[1..], name);
      assert edges == [edges[0]] + edges[1..];
    }
  }

  lemma {:induction false} OtherEdgesCount(edges: seq<Edge>, pair: Arc)
    ensures forall e :: multiset(OtherEdges(edges, pair))[e] == if (e.from, e.to) != pair then multiset(edges)[e] else 0
  {
    if edges != [] {
      OtherEdgesCount(edges[1..], pair);
      assert edges == [edges[0]] + edges[1..];
    }
  }

  ghost predicate Rewires(edits: seq<EdgeEdit>, pair: Arc) {
    exists e :: e in edits && Pair(e) == pair
  }

  ghost predicate Connects(edits: seq<EdgeEdit>, f: Edge) {
    exists e :: e in edits && !e.delete && f == Edge(e.from, e.to, e.feedback)
  }

  /** What a batch of edge edits with different targets leaves: untouched edges and created ones. */
  lemma {:induction false} EdgeBatch(g: Graph, edits: seq<EdgeEdit>)
    requires Distinct(EdgeTargets(edits))
    ensures AfterEdges(g, edits).nodes == g.nodes
    ensures forall f :: f in AfterEdges(g, edits).edges <==>
      (f in g.edges && !Rewires(edits, (f.from, f.to))) || Connects(edits, f)
  {
    if edits != [] {
      var init, last := edits[..|edits| - 1], edits[|edits| - 1];
      assert edits == init + [last];
      assert forall i :: 0 <= i < |init| ==> EdgeTargets(edits)[i] == EdgeTargets(init)[i];
      EdgeBatch(g, init);
      EdgeBatchStep(AfterEdges(g, init), last);
      LastPairIsNew(init, last);
      forall f
        ensures Connects(edits, f) <==> Connects(init, f) || (!last.delete && f == Edge(last.from, last.to, last.feedback))
        ensures Connects(init, f) ==> (f.from, f.to) != Pair(last)
      {
      }
    }
  }

  lemma LastPairIsNew(init: seq<EdgeEdit>, last: EdgeEdit)
    requires Distinct(EdgeTargets(init + [last]))
    ensures forall e :: e in init ==> Pair(e) != Pair(last)
  {
    var all := init + [last];
    forall e | e in init
      ensures Pair(e) != Pair(last)
    {
      var i :| 0 <= i < |init| && init[i] == e;
      assert EdgeTargets(all)[i] == Pair(e) && EdgeTargets(all)[|init|] == Pair(last);
    }
  }

  lemma EdgeBatchStep(g: Graph, e: EdgeEdit)
    ensures forall f :: f in AfterEdge(g, e).edges <==>
      (f in g.edges && (f.from, f.to) != Pair(e)) || (!e.delete && f == Edge(e.from, e.to, e.feedback))
  {
    OtherEdgesIff(g.edges, Pair(e));
  }

  /** After one edge edit its pair is joined by the given edge, once, or by none; all else occurs as often as before. */
  lemma EdgeEditLeaves(g: Graph, e: EdgeEdit, f: Edge)
    ensures multiset(AfterEdge(g, e).edges)[f] ==
            (if (f.from, f.to) != Pair(e) then multiset(g.edges)[f]
             else if !e.delete && f.feedback == e.feedback then 1 else 0)
  {
    OtherEdgesCount(g.edges, Pair(e));
  }

  ghost predicate SameSets(g: Graph, h: Graph) {
    && (forall n :: n in g.nodes <==> n in h.nodes)
    && (forall e :: e in g.edges <==> e in h.edges)
  }

  /** A batch of node edits accepted as having different targets may be given in any order. */
  lemma NodeBatchOrderIrrelevant(g: Graph, a: seq<NodeEdit>, b: seq<NodeEdit>)
    requires Distinct(NodeTargets(a)) && Distinct(NodeTargets(b))
    requires forall e :: e in a <==> e in b
    ensures SameSets(AfterNodes(g, a), AfterNodes(g, b))
  {
    NodeBatch(g, a);
    NodeBatch(g, b);
    forall name
      ensures Targets(a, name) <==> Targets(b, name)
      ensures Deletes(a, name) <==> Deletes(b, name)
    {
    }
    forall n
      ensures Creates(a, n) <==> Creates(b, n)
    {
    }
  }

  lemma EdgeBatchOrderIrrelevant(g: Graph, a: seq<EdgeEdit>, b: seq<EdgeEdit>)
    requires Distinct(EdgeTargets(a)) && Distinct(EdgeTargets(b))
    requires forall e :: e in a <==> e in b
    ensures SameSets(AfterEdges(g, a), AfterEdges(g, b))
  {
    EdgeBatch(g, a);
    EdgeBatch(g, b);
    forall pair: Arc
      ensures Rewires(a, pair) <==> Rewires(b, pair)
    {
    }
    forall f
      ensures Connects(a, f) <==> Connects(b, f)
    {
    }
  }

  /** With a repeated target the order does matter: the last edit wins. */
  lemma RepeatedTargetOrderMatters()
    ensures
      var g := Graph("", [], []);
      var create, remove := NodeEdit("a", Some("t"), false), NodeEdit("a", None, true);
      !SameSets(AfterNodes(g, [create, remove]), AfterNodes(g, [remove, create]))
  {
    var g := Graph("", [], []);
    var create, remove := NodeEdit("a", Some("t"), false), NodeEdit("a", None, true);
    assert [create, remove][..1] == [create] && [remove, create][..1] == [remove];
    var h := AfterNode(AfterNode(g, create), remove);
    var k := AfterNode(AfterNode(g, remove), create);
    NodeBatchStep(AfterNode(g, create), remove);
    NodeBatchStep(AfterNode(g, remove), create);
    assert AfterNodes(g, [create]) == AfterNode(g, create);
    assert AfterNodes(g, [remove]) == AfterNode(g, remove);
    assert Node("a", "t") in k.nodes && Node("a", "t") !in h.nodes;
  }

  // ----- topology

  datatype Topology = Topology(directDependencies: map<string, seq<string>>, feedbackTo: map<string, string>,
                               unrepresented: seq<Edge>)

  ghost function EmptyTopology(g: Graph): Topology {
    Topology(map n | n in NodeNames(g) :: [], map[], [])
  }

  function Add(t: Topology, e: Edge): Topology {
    if e.from !in t.directDependencies || e.to !in t.directDependencies || (e.feedback && e.from in t.feedbackTo) then
      t.(unrepresented := t.unrepresented + [e])
    else if e.feedback then
      t.(feedbackTo := t.feedbackTo[e.from := e.to])
    else
      t.(directDependencies := t.directDependencies[e.to := t.directDependencies[e.to] + [e.from]])
  }

  ghost function TopologyOf(g: Graph, n: nat): Topology
    requires n <= |g.edges|
  {
    if n == 0 then EmptyTopology(g) else Add(TopologyOf(g, n - 1), g.edges[n - 1])
  }

  /** The projection the tools answer with: one pass over the edges, filling the two tables. */
  method Project(g: Graph) returns (t: Topology)
    ensures t == TopologyOf(g, |g.edges|)
  {
    var directDependencies: map<string, seq<string>> := map n | n in NodeNames(g) :: [];
    var feedbackTo: map<string, string> := map[];
    var unrepresented: seq<Edge> := [];
    for i := 0 to |g.edges|
      invariant Topology(directDependencies, feedbackTo, unrepresented) == TopologyOf(g, i)
    {
      var e := g.edges[i];
      if e.from !in directDependencies || e.to !in directDependencies || (e.feedback && e.from in feedbackTo) {
        unrepresented := unrepresented + [e];
      } else if e.feedback {
        feedbackTo := feedbackTo[e.from := e.to];
      } else {
        directDependencies := directDependencies[e.to := directDependencies[e.to] + [e.from]];
      }
    }
    t := Topology(directDependencies, feedbackTo, unrepresented);
  }

  /** How often an edge can be read back from the three parts of a topology. */
  ghost function Decoded(t: Topology, e: Edge): nat {
    multiset(t.unrepresented)[e]
    + (if !e.feedback && e.to in t.directDependencies then multiset(t.directDependencies[e.to])[e.from] else 0)
    + (if e.feedback && e.from in t.feedbackTo && t.feedbackTo[e.from] == e.to then 1 else 0)
  }

  lemma EmptyDecodes(g: Graph, f: Edge)
    ensures Decoded(EmptyTopology(g), f) == 0
  {
  }

  lemma CountNext(edges: seq<Edge>, i: nat, f: Edge)
    requires i < |edges|
    ensures multiset(edges[..i + 1])[f] == multiset(edges[..i])[f] + (if f == edges[i] then 1 else 0)
  {
    assert edges[..i + 1] == edges[..i] + [edges[i]];
  }

  lemma AddDecodes(t: Topology, e: Edge, f: Edge)
    ensures Decoded(Add(t, e), f) == Decoded(t, f) + (if f == e then 1 else 0)
  {
  }

  /** How many more times an edge is read back than it was listed among the first `n`. */
  ghost function Surplus(g: Graph, n: nat, f: Edge): int
    requires n <= |g.edges|
  {
    Decoded(TopologyOf(g, n), f) - multiset(g.edges[..n])[f]
  }

  lemma SurplusAtFirst(g: Graph, f: Edge)
    ensures Surplus(g, 0, f) == 0
  {
    EmptyDecodes(g, f);
    assert g.edges[..0] == [];
  }

  lemma SurplusNext(g: Graph, i: nat, f: Edge)
    requires i < |g.edges|
    ensures Surplus(g, i + 1, f) == Surplus(g, i, f)
  {
    AddDecodes(TopologyOf(g, i), g.edges[i], f);
    CountNext(g.edges, i, f);
    assert TopologyOf(g, i + 1) == Add(TopologyOf(g, i), g.edges[i]);
  }

  /** No edge is lost and none is doubled. */
  lemma TopologyPartitions(g: Graph, n: nat, f: Edge)
    requires n <= |g.edges|
    ensures Surplus(g, n, f) == 0
  {
    SurplusAtFirst(g, f);
    for i := 0 to n
      invariant Surplus(g, i, f) == 0
    {
      SurplusNext(g, i, f);
    }
  }

  /** Equal topologies come from the same edges. */
  lemma TopologyDeterminesEdges(g: Graph, h: Graph)
    requires TopologyOf(g, |g.edges|) == TopologyOf(h, |h.edges|)
    ensures multiset(g.edges) == multiset(h.edges)
  {
    assert g.edges[..|g.edges|] == g.edges && h.edges[..|h.edges|] == h.edges;
    forall f
      ensures multiset(g.edges)[f] == multiset(h.edges)[f]
    {
      TopologyPartitions(g, |g.edges|, f);
      TopologyPartitions(h, |h.edges|, f);
    }
  }

  lemma {:induction false} TopologyShape(g: Graph, n: nat)
    requires n <= |g.edges|
    requires Compiler.EdgesWellFormed(NodeNames(g), g.edges) && Compiler.OneTargetEach(g.edges)
    ensures var t := TopologyOf(g, n);
      && t.directDependencies.Keys == NodeNames(g)
      && t.unrepresented == []
      && forall s :: s in t.feedbackTo ==> exists i :: 0 <= i < n && g.edges[i].feedback && g.edges[i].from == s
  {
    if n > 0 {
      TopologyShape(g, n - 1);
      var t, e := TopologyOf(g, n - 1), g.edges[n - 1];
      OneRouteEach(g, n - 1);
      assert Add(t, e).directDependencies.Keys == NodeNames(g);
    }
  }

  lemma OneRouteEach(g: Graph, j: nat)
    requires j < |g.edges| && g.edges[j] in g.edges
    requires Compiler.EdgesWellFormed(NodeNames(g), g.edges) && Compiler.OneTargetEach(g.edges)
    ensures g.edges[j].feedback ==>
      forall i :: 0 <= i < j && g.edges[i].feedback ==> g.edges[i].from != g.edges[j].from
  {
    forall i | 0 <= i < j && g.edges[i].feedback && g.edges[j].feedback
      ensures g.edges[i].from != g.edges[j].from
    {
      assert (g.edges[i].from, g.edges[i].to) != (g.edges[j].from, g.edges[j].to);
      assert g.edges[i] in g.edges;
    }
  }

  /** For a graph the compiler accepts, nothing is left unrepresented: `directDependencies` and
      `feedbackTo` alone say which edges there are. */
  lemma AcceptedIsRepresented(fold: Compiler.Fold, g: Graph, finalCheck: bool, plan: Compiler.Plan, f: Edge)
    requires Compiler.Answers(fold, g, finalCheck, true, Ok(plan))
    ensures var t := TopologyOf(g, |g.edges|);
      && t.unrepresented == []
      && (f in g.edges <==>
           if f.feedback then f.from in t.feedbackTo && t.feedbackTo[f.from] == f.to
           else f.to in t.directDependencies && f.from in t.directDependencies[f.to])
  {
    TopologyShape(g, |g.edges|);
    TopologyPartitions(g, |g.edges|, f);
    assert g.edges[..|g.edges|] == g.edges;
  }

  // ----- the commit

  datatype Request = NodeEdits(nodes: seq<NodeEdit>) | EdgeEdits(edges: seq<EdgeEdit>)

  datatype Response =
    | Applied(rootNodes: Option<seq<string>>, topology: Topology, warnings: seq<Compiler.Warning>)
    | Rejected(topology: Topology, codes: seq<string>)

  ghost predicate DistinctTargets(request: Request) {
    match request
    case NodeEdits(edits) => Distinct(NodeTargets(edits))
    case EdgeEdits(edits) => Distinct(EdgeTargets(edits))
  }

  /** How many targets of the request were given before. */
  ghost function RepeatCount(request: Request): nat {
    match request
    case NodeEdits(edits) => |Repetitions(NodeTargets(edits), |edits|)|
    case EdgeEdits(edits) => |Repetitions(EdgeTargets(edits), |edits|)|
  }

  ghost function Candidate(saved: Graph, request: Request): Graph {
    match request
    case NodeEdits(edits) => AfterNodes(saved, edits)
    case EdgeEdits(edits) => AfterEdges(saved, edits)
  }

  ghost predicate Accepted(fold: Compiler.Fold, g: Graph) {
    exists plan :: Compiler.Answers(fold, g, false, true, Ok(plan))
  }

  /** `unremovable_node_diagnostics`: the published nodes a candidate no longer has. */
  function Removed(g: Graph, unremovable: seq<string>): seq<string> {
    if unremovable == [] then []
    else (if unremovable[0] in NodeNames(g) then [] else [unremovable[0]]) + Removed(g, unremovable[1..])
  }

  lemma {:induction false} RemovedIff(g: Graph, unremovable: seq<string>)
    ensures forall n :: n in Removed(g, unremovable) <==> n in unremovable && n !in NodeNames(g)
  {
    if unremovable != [] {
      RemovedIff(g, unremovable[1..]);
      assert unremovable == [unremovable[0]] + unremovable[1..];
    }
  }

  function Repeated(code: string, n: nat): seq<string> {
    seq(n, i => code)
  }

  function Codes(ds: seq<Compiler.Diagnostic>): seq<string> {
    seq(|ds|, i requires 0 <= i < |ds| => Compiler.Code(ds[i]))
  }

  /** What may be committed: a request with different targets whose result compiles and keeps every
      published node. */
  ghost predicate Committable(fold: Compiler.Fold, saved: Graph, request: Request, unremovable: seq<string>) {
    && DistinctTargets(request)
    && Accepted(fold, Candidate(saved, request))
    && forall n :: n in unremovable ==> n in NodeNames(Candidate(saved, request))
  }

  /** What became of the compiler process: it answered, it could not be run, or its output could not be read. */
  datatype CompilerRun = Answered | Unavailable | Unreadable

  /** The codes of the compiler process: those of the compiler, else one for each published node that is missing. */
  ghost predicate FailsWith(fold: Compiler.Fold, g: Graph, unremovable: seq<string>, codes: seq<string>) {
    if Accepted(fold, g) then codes == Repeated("E210", |Removed(g, unremovable)|)
    else exists errors :: Compiler.Answers(fold, g, false, true, Err(errors)) && codes == Codes(errors)
  }

  /** The codes of a rejection are those of the first stage that fails. */
  ghost predicate RejectedWith(fold: Compiler.Fold, saved: Graph, request: Request, unremovable: seq<string>,
                               compiler: CompilerRun, codes: seq<string>)
  {
    if !DistinctTargets(request) then codes == Repeated("duplicate-target", RepeatCount(request))
    else
      match compiler
      case Unavailable => codes == ["compiler-unavailable"]
      case Unreadable => codes == ["compiler-response"]
      case Answered => FailsWith(fold, Candidate(saved, request), unremovable, codes)
  }

  /** The first batch of nodes into an empty graph: its roots would repeat every node. */
  predicate InitialNodeBatch(saved: Graph, request: Request, g: Graph) {
    request.NodeEdits? && saved.nodes == [] && saved.edges == [] && g.nodes != []
  }

  /** One call of a graph tool: the saved graph is replaced exactly when the request is committable
      and the compiler answered; otherwise it is untouched and reported as it was. */
  ghost predicate Mutates(fold: Compiler.Fold, saved: Graph, request: Request, unremovable: seq<string>,
                          compiler: CompilerRun, saved': Graph, response: Response)
  {
    var g := Candidate(saved, request);
    if compiler == Answered && Committable(fold, saved, request, unremovable) then
      && saved' == g
      && exists plan :: Compiler.Answers(fold, g, false, true, Ok(plan)) && response ==
           Applied(if InitialNodeBatch(saved, request, g) then None else Some(plan.roots), TopologyOf(g, |g.edges|), plan.warnings)
    else
      && saved' == saved
      && response.Rejected? && response.topology == TopologyOf(saved, |saved.edges|) && response.codes != []
      && RejectedWith(fold, saved, request, unremovable, compiler, response.codes)
  }

  class Workspace {
    var saved: Graph

    constructor (g: Graph)
      ensures saved == g
    {
      saved := g;
    }

    /** The candidate, if no target of the request repeats. */
    method Edit(request: Request) returns (repeats: seq<Repeat>, g: Graph)
      ensures |repeats| == RepeatCount(request) && (repeats == [] <==> DistinctTargets(request))
      ensures repeats == [] ==> g == Candidate(saved, request)
    {
      var draft := new Draft(saved);
      match request {
        case NodeEdits(edits) =>
          repeats := DuplicateTargets(seq(|edits|, i requires 0 <= i < |edits| => edits[i].name));
          if repeats == [] {
            draft.ApplyNodes(edits);
          }
        case EdgeEdits(edits) =>
          repeats := DuplicateTargets(seq(|edits|, i requires 0 <= i < |edits| => Pair(edits[i])));
          if repeats == [] {
            draft.ApplyEdges(edits);
          }
      }
      g := draft.Value();
    }

    method Mutate(fold: Compiler.Fold, request: Request, unremovable: seq<string>, compiler: CompilerRun)
      returns (response: Response)
      modifies this
      ensures Mutates(fold, old(saved), request, unremovable, compiler, saved, response)
    {
      var before := Project(saved);
      var repeats, g := Edit(request);
      if repeats != [] {
        return Rejected(before, Repeated("duplicate-target", |repeats|));
      }
      match compiler {
        case Unavailable => return Rejected(before, ["compiler-unavailable"]);
        case Unreadable => return Rejected(before, ["compiler-response"]);
        case Answered =>
      }
      var checked := Check(fold, g, unremovable);
      if checked.Err? {
        return Rejected(before, checked.error);
      }
      var initialNodeBatch := InitialNodeBatch(saved, request, g);
      saved := g;
      var after := Project(g);
      response := Applied(if initialNodeBatch then None else Some(checked.value.roots), after, checked.value.warnings);
    }
  }

  /** What the compiler process answers: a plan, or the codes of the first stage that fails. */
  method Check(fold: Compiler.Fold, g: Graph, unremovable: seq<string>) returns (r: Result<Compiler.Plan, seq<string>>)
    ensures r.Ok? ==> Compiler.Answers(fold, g, false, true, Ok(r.value))
    ensures r.Ok? <==> Accepted(fold, g) && forall n :: n in unremovable ==> n in NodeNames(g)
    ensures r.Err? ==> r.error != [] && FailsWith(fold, g, unremovable, r.error)
  {
    var compiled := Compiler.Compile(fold, g, false);
    AnswerDecides(fold, g, compiled);
    if compiled.Err? {
      return Err(Codes(compiled.error));
    }
    var removed := Removed(g, unremovable);
    RemovedIff(g, unremovable);
    if removed != [] {
      assert removed[0] in removed;
      return Err(Repeated("E210", |removed|));
    }
    r := Ok(compiled.value);
  }

  /** The compiler's one answer says whether the graph is accepted, and an error says why. */
  lemma AnswerDecides(fold: Compiler.Fold, g: Graph, r: Result<Compiler.Plan, seq<Compiler.Diagnostic>>)
    requires Compiler.Answers(fold, g, false, true, r)
    ensures r.Ok? <==> Accepted(fold, g)
    ensures r.Err? ==> r.error != []
  {
    Compiler.StructuralErrorsIff(fold, g, false);
    Compiler.RouteErrorsIff(g, |g.edges|);
    if r.Err? && Compiler.RedundancyReport(g, |g.edges|, r.error) {
      Compiler.RedundancyReportIff(g, |g.edges|, r.error);
    }
    if r.Ok? {
      assert Compiler.Answers(fold, g, false, true, Ok(r.value));
    }
  }

  /** Over any sequence of tool calls, the saved graph stays one the compiler accepts, and no published
      node is ever lost. */
  lemma {:induction false} EveryRunStaysAccepted(fold: Compiler.Fold, unremovable: seq<string>, graphs: seq<Graph>,
                                                 requests: seq<Request>, ran: seq<CompilerRun>, responses: seq<Response>)
    requires |graphs| == |requests| + 1 && |ran| == |responses| == |requests|
    requires Accepted(fold, graphs[0]) && forall n :: n in unremovable ==> n in NodeNames(graphs[0])
    requires forall i :: 0 <= i < |requests| ==>
      Mutates(fold, graphs[i], requests[i], unremovable, ran[i], graphs[i + 1], responses[i])
    ensures Accepted(fold, graphs[|requests|])
    ensures forall n :: n in unremovable ==> n in NodeNames(graphs[|requests|])
  {
    for i := 0 to |requests|
      invariant Accepted(fold, graphs[i])
      invariant forall n :: n in unremovable ==> n in NodeNames(graphs[i])
    {
      assert Mutates(fold, graphs[i], requests[i], unremovable, ran[i], graphs[i + 1], responses[i]);
    }
  }

  /** The empty graph, which a run starts from, is accepted. */
  lemma EmptyGraphAccepted(fold: Compiler.Fold, goal: string)
    ensures Accepted(fold, Graph(goal, [], []))
  {
    var g := Graph(goal, [], []);
    var d := Dependencies(g);
    assert d == {} && NodeNames(g) == {};
    forall v
      ensures !Follows(d, v, v)
    {
      if Follows(d, v, v) {
        FollowsLastArc(d, v, v);
      }
    }
    var plan := Compiler.Plan([], Sorted(Layering.Roots(d, {})), Sorted(Layering.Terminals(d, {})), Compiler.Warnings(g));
    assert Compiler.IsPlan(g, plan);
    assert Compiler.Answers(fold, g, false, true, Ok(plan));
  }
}
