/** The graph the planner edits and the runtime executes. */
module Model {
  import opened Paths

  datatype Node = Node(name: string, task: string)

  datatype Edge = Edge(from: string, to: string, feedback: bool)

  datatype Graph = Graph(goal: string, nodes: seq<Node>, edges: seq<Edge>)

  /** The node names, as the set the compiler collects. */
  function NodeNames(g: Graph): set<string> {
    set n | n in g.nodes :: n.name
  }

  /** Only dependency edges order execution; feedback edges are routes. */
  function Dependencies(g: Graph): set<Arc> {
    set e | e in g.edges && !e.feedback :: (e.from, e.to)
  }

  lemma DependencyIff(g: Graph, u: string, v: string)
    ensures (u, v) in Dependencies(g) <==> Edge(u, v, false) in g.edges
  {
    if Edge(u, v, false) in g.edges {
      var e := Edge(u, v, false);
      assert e in g.edges && !e.feedback && (e.from, e.to) == (u, v);
    }
    if (u, v) in Dependencies(g) {
      var e :| e in g.edges && !e.feedback && (e.from, e.to) == (u, v);
      assert e == Edge(u, v, false);
    }
  }

  lemma NodeNameIn(g: Graph, i: nat)
    requires i < |g.nodes|
    ensures g.nodes[i].name in NodeNames(g)
  {
    assert g.nodes[i] in g.nodes;
  }
}
