/** What refusing redundant dependencies means: an accepted graph is its own transitive reduction, and
    a graph from an older run keeps its plan when its redundant dependencies are deleted. */
module Reduction {
  import opened Wrappers
  import opened Names
  import opened Paths
  import opened Collections
  import opened Model
  import opened Compiler
  import Downstream
  import AlternatePath
  import Layering

  // ----- arcs

  ghost predicate RedundantArc(d: set<Arc>, a: Arc) {
    Reaches(d - {a}, a.0, a.1)
  }

  ghost function Reduced(d: set<Arc>): set<Arc> {
    set a | a in d && !RedundantArc(d, a)
  }

  ghost predicate NoRedundantArc(d: set<Arc>) {
    forall a :: a in d ==> !RedundantArc(d, a)
  }

  ghost predicate LongestBetween(d: set<Arc>, p: seq<string>, u: string, v: string) {
    PathBetween(d, p, u, v) && forall q :: PathBetween(d, q, u, v) ==> |q| <= |p|
  }

  /** In an acyclic graph no path has more nodes than there are ends of arcs, but for a single node. */
  lemma PathBound(d: set<Arc>, p: seq<string>)
    requires Acyclic(d) && Path(d, p)
    ensures |p| <= |Ends(d)| + 1
  {
    AcyclicPathSimple(d, p);
    if |p| > |Ends(d)| + 1 {
      PathWithin(d, p);
      Pigeonhole(p, Ends(d));
    }
  }

  lemma {:induction false} LongestFrom(d: set<Arc>, p: seq<string>, u: string, v: string) returns (q: seq<string>)
    requires Acyclic(d) && PathBetween(d, p, u, v)
    ensures LongestBetween(d, q, u, v)
    decreases |Ends(d)| + 1 - |p|
  {
    if r :| PathBetween(d, r, u, v) && |r| > |p| {
      PathBound(d, r);
      q := LongestFrom(d, r, u, v);
    } else {
      q := p;
    }
  }

  lemma Detoured(d: set<Arc>, u: string, v: string, q: seq<string>)
    requires Acyclic(d) && (u, v) in d && PathBetween(d - {(u, v)}, q, u, v)
    ensures |q| >= 3 && Path(d, q)
  {
    Monotone(d - {(u, v)}, d, q);
    ArcFollows(d, u, v);
    assert |q| >= 2;
    assert Step(d - {(u, v)}, q, 0);
  }

  lemma Splice(d: set<Arc>, p: seq<string>, i: nat, q: seq<string>)
    requires Path(d, p) && i + 1 < |p| && PathBetween(d, q, p[i], p[i + 1]) && |q| >= 3
    ensures exists r :: PathBetween(d, r, p[0], p[|p| - 1]) && |r| > |p|
  {
    Slice(d, p, 0, i + 1);
    Join(d, p[0..i + 1], q);
    var front := p[0..i + 1] + q[1..];
    Slice(d, p, i + 1, |p|);
    Join(d, front, p[i + 1..|p|]);
    assert PathBetween(d, front + p[i + 1..|p|][1..], p[0], p[|p| - 1]);
  }

  /** A longest path uses no redundant arc: the detour would make it longer. */
  lemma LongestIsReduced(d: set<Arc>, p: seq<string>, u: string, v: string)
    requires Acyclic(d) && LongestBetween(d, p, u, v)
    ensures PathBetween(Reduced(d), p, u, v)
  {
    forall i {:trigger Step(Reduced(d), p, i)} | 0 <= i < |p| - 1
      ensures Step(Reduced(d), p, i)
    {
      assert Step(d, p, i);
      var a := (p[i], p[i + 1]);
      assert a in d;
      if RedundantArc(d, a) {
        var q :| PathBetween(d - {a}, q, a.0, a.1);
        Detoured(d, a.0, a.1, q);
        Splice(d, p, i, q);
      }
    }
  }

  lemma ReducedKeepsReachability(d: set<Arc>, u: string, v: string)
    requires Acyclic(d)
    ensures Reaches(Reduced(d), u, v) <==> Reaches(d, u, v)
    ensures Follows(Reduced(d), u, v) <==> Follows(d, u, v)
  {
    if Reaches(d, u, v) {
      var p :| PathBetween(d, p, u, v) && (Follows(d, u, v) ==> |p| >= 2);
      var q := LongestFrom(d, p, u, v);
      LongestIsReduced(d, q, u, v);
    }
    if Reaches(Reduced(d), u, v) {
      var p :| PathBetween(Reduced(d), p, u, v) && (Follows(Reduced(d), u, v) ==> |p| >= 2);
      Monotone(Reduced(d), d, p);
      assert PathBetween(d, p, u, v);
    }
    FollowsReaches(d, u, v);
    FollowsReaches(Reduced(d), u, v);
  }

  lemma FollowsReaches(d: set<Arc>, u: string, v: string)
    ensures Follows(d, u, v) ==> Reaches(d, u, v)
  {
  }

  lemma ReducedAcyclic(d: set<Arc>)
    requires Acyclic(d)
    ensures Acyclic(Reduced(d))
  {
    forall v
      ensures !Follows(Reduced(d), v, v)
    {
      ReducedKeepsReachability(d, v, v);
    }
  }

  /** Deleting all redundant arcs at once leaves none: they do not become redundant one by one. */
  lemma ReducedHasNoRedundancy(d: set<Arc>)
    ensures NoRedundantArc(Reduced(d))
  {
    forall a | a in Reduced(d)
      ensures !RedundantArc(Reduced(d), a)
    {
      if RedundantArc(Reduced(d), a) {
        var p :| PathBetween(Reduced(d) - {a}, p, a.0, a.1);
        Monotone(Reduced(d) - {a}, d - {a}, p);
        assert PathBetween(d - {a}, p, a.0, a.1);
      }
    }
  }

  lemma ReducedKeepsDepth(d: set<Arc>, v: string, k: nat)
    requires Acyclic(d) && Layering.Depth(d, v, k)
    ensures Layering.Depth(Reduced(d), v, k)
  {
    var p :| Layering.EndsAt(d, p, v) && |p| == k + 1;
    forall q | PathBetween(d, q, p[0], v)
      ensures |q| <= |p|
    {
      assert Layering.EndsAt(d, q, v);
    }
    LongestIsReduced(d, p, p[0], v);
    assert Layering.EndsAt(Reduced(d), p, v);
    forall q | Layering.EndsAt(Reduced(d), q, v)
      ensures |q| <= k + 1
    {
      Monotone(Reduced(d), d, q);
      assert Layering.EndsAt(d, q, v);
    }
  }

  lemma ReducedKeepsLayers(d: set<Arc>, names: set<string>, batches: seq<seq<string>>)
    requires Acyclic(d) && Layering.Layered(d, names, batches)
    ensures Layering.Layered(Reduced(d), names, batches)
  {
    forall i, v | 0 <= i < |batches| && v in batches[i]
      ensures v in names && Layering.Depth(Reduced(d), v, i)
    {
      assert Layering.Depth(d, v, i);
      ReducedKeepsDepth(d, v, i);
    }
  }

  lemma FirstArc(d: set<Arc>, u: string, w: string)
    requires Follows(d, u, w)
    ensures exists v :: (u, v) in d
  {
    var p :| PathBetween(d, p, u, w) && |p| >= 2;
    assert Step(d, p, 0);
  }

  lemma ReducedKeepsRoots(d: set<Arc>, names: set<string>)
    requires Acyclic(d)
    ensures Layering.Roots(Reduced(d), names) == Layering.Roots(d, names)
  {
    forall v | v in names
      ensures Predecessors(Reduced(d), v) == {} <==> Predecessors(d, v) == {}
    {
      if u :| u in Predecessors(d, v) {
        PredecessorIff(d, u, v);
        ArcFollows(d, u, v);
        ReducedKeepsReachability(d, u, v);
        FollowsLastArc(Reduced(d), u, v);
        var w :| Reaches(Reduced(d), u, w) && (w, v) in Reduced(d);
        PredecessorIff(Reduced(d), w, v);
      }
      if w :| w in Predecessors(Reduced(d), v) {
        PredecessorIff(Reduced(d), w, v);
        PredecessorIff(d, w, v);
      }
    }
  }

  lemma ReducedKeepsTerminals(d: set<Arc>, names: set<string>)
    requires Acyclic(d)
    ensures Layering.Terminals(Reduced(d), names) == Layering.Terminals(d, names)
  {
    forall v | v in names && exists a :: a in d && a.0 == v
      ensures exists a :: a in Reduced(d) && a.0 == v
    {
      var a :| a in d && a.0 == v;
      ArcFollows(d, v, a.1);
      ReducedKeepsReachability(d, v, a.1);
      FirstArc(Reduced(d), v, a.1);
      var w :| (v, w) in Reduced(d);
      assert (v, w).0 == v;
    }
  }

  // ----- the transitive reduction is unique

  ghost predicate Between(d: set<Arc>, u: string, w: string, v: string) {
    Follows(d, u, w) && Follows(d, w, v)
  }

  /** Without redundancy, the arcs are exactly the pairs in order with nothing strictly between. */
  lemma ArcIffCovers(d: set<Arc>, u: string, v: string)
    requires Acyclic(d) && NoRedundantArc(d)
    ensures (u, v) in d <==> Follows(d, u, v) && forall w :: !Between(d, u, w, v)
  {
    if (u, v) in d {
      ArcFollows(d, u, v);
      forall w
        ensures !Between(d, u, w, v)
      {
        if Between(d, u, w, v) {
          ThroughIsDetour(d, u, w, v);
        }
      }
    } else if Follows(d, u, v) {
      var p :| PathBetween(d, p, u, v) && |p| >= 2;
      assert Step(d, p, 0);
      var w := p[1];
      ArcFollows(d, u, w);
      Slice(d, p, 1, |p|);
      assert PathBetween(d, p[1..|p|], w, v);
      assert Between(d, u, w, v);
    }
  }

  lemma ThroughIsDetour(d: set<Arc>, u: string, w: string, v: string)
    requires Acyclic(d) && Between(d, u, w, v) && (u, v) in d
    ensures RedundantArc(d, (u, v))
  {
    var p :| PathBetween(d, p, u, w) && |p| >= 2;
    var q :| PathBetween(d, q, w, v) && |q| >= 2;
    Join(d, p, q);
    var r := p + q[1..];
    AcyclicPathSimple(d, r);
    var e := d - {(u, v)};
    forall i {:trigger Step(e, r, i)} | 0 <= i < |r| - 1
      ensures Step(e, r, i)
    {
      assert Step(d, r, i);
      assert i > 0 ==> r[i] != r[0];
      assert i + 1 < |r| - 1 ==> r[i + 1] != r[|r| - 1];
    }
    assert PathBetween(e, r, u, v);
  }

  /** Equal reachability leaves only one irredundant acyclic graph. */
  lemma ReductionUnique(d: set<Arc>, e: set<Arc>)
    requires Acyclic(d) && NoRedundantArc(d)
    requires Acyclic(e) && NoRedundantArc(e)
    requires forall u, v :: Reaches(d, u, v) <==> Reaches(e, u, v)
    ensures d == e
  {
    forall a: Arc
      ensures a in d <==> a in e
    {
      ArcIffCovers(d, a.0, a.1);
      ArcIffCovers(e, a.0, a.1);
      forall u, v
        ensures Follows(d, u, v) <==> Follows(e, u, v)
      {
        AcyclicFollows(d, u, v);
        AcyclicFollows(e, u, v);
      }
      assert forall w :: Between(d, a.0, w, a.1) <==> Between(e, a.0, w, a.1);
    }
  }

  lemma AcyclicFollows(d: set<Arc>, u: string, v: string)
    requires Acyclic(d)
    ensures Follows(d, u, v) <==> Reaches(d, u, v) && u != v
  {
    ReachesSplit(d, u, v);
  }

  // ----- graphs

  lemma RedundantIff(g: Graph, e: Edge)
    requires e in g.edges && !e.feedback && e.from != e.to
    ensures (e.from, e.to) in Dependencies(g)
    ensures Redundant(g, e) <==> RedundantArc(Dependencies(g), (e.from, e.to))
  {
    assert e == Edge(e.from, e.to, false);
    DependencyIff(g, e.from, e.to);
  }

  lemma NoneRedundantIff(g: Graph)
    requires EdgesWellFormed(NodeNames(g), g.edges)
    ensures NoneRedundant(g, |g.edges|) <==> NoRedundantArc(Dependencies(g))
  {
    forall i | 0 <= i < |g.edges| && !g.edges[i].feedback
      ensures (g.edges[i].from, g.edges[i].to) in Dependencies(g)
      ensures Redundant(g, g.edges[i]) <==> RedundantArc(Dependencies(g), (g.edges[i].from, g.edges[i].to))
    {
      RedundantIff(g, g.edges[i]);
    }
    if NoneRedundant(g, |g.edges|) {
      forall a | a in Dependencies(g)
        ensures !RedundantArc(Dependencies(g), a)
      {
        DependencyIff(g, a.0, a.1);
        var i :| 0 <= i < |g.edges| && g.edges[i] == Edge(a.0, a.1, false);
        assert !Redundant(g, g.edges[i]);
      }
    }
  }

  /** The first `n` edges without the redundant dependencies. */
  ghost function Kept(g: Graph, n: nat): seq<Edge>
    requires n <= |g.edges|
  {
    if n == 0 then []
    else Kept(g, n - 1) + (if Redundant(g, g.edges[n - 1]) then [] else [g.edges[n - 1]])
  }

  /** The graph with every redundant dependency deleted, all at once. */
  ghost function Reduce(g: Graph): Graph {
    g.(edges := Kept(g, |g.edges|))
  }

  lemma {:induction false} KeptIff(g: Graph, n: nat)
    requires n <= |g.edges|
    ensures forall e :: e in Kept(g, n) <==> !Redundant(g, e) && e in g.edges[..n]
  {
    if n > 0 {
      KeptIff(g, n - 1);
      assert g.edges[..n] == g.edges[..n - 1] + [g.edges[n - 1]];
    }
  }

  lemma {:induction false} KeptDistinct(g: Graph, n: nat)
    requires n <= |g.edges| && EdgesWellFormed(NodeNames(g), g.edges)
    ensures EdgesWellFormed(NodeNames(g), Kept(g, n))
  {
    if n > 0 {
      KeptDistinct(g, n - 1);
      KeptIff(g, n - 1);
      var e := g.edges[n - 1];
      forall f | f in Kept(g, n - 1)
        ensures (f.from, f.to) != (e.from, e.to)
      {
        var j :| 0 <= j < n - 1 && g.edges[..n - 1][j] == f;
        assert g.edges[j] == f;
      }
      KeptOneMore(NodeNames(g), Kept(g, n - 1), e);
    }
  }

  lemma KeptOneMore(names: set<string>, kept: seq<Edge>, e: Edge)
    requires EdgesWellFormed(names, kept)
    requires e.from in names && e.to in names && e.from != e.to
    requires forall f :: f in kept ==> (f.from, f.to) != (e.from, e.to)
    ensures EdgesWellFormed(names, kept + [e])
  {
    var all := kept + [e];
    forall i, j | 0 <= i < j < |all|
      ensures (all[i].from, all[i].to) != (all[j].from, all[j].to)
    {
      assert all[i] == kept[i] && kept[i] in kept;
      assert j < |kept| ==> all[j] == kept[j];
    }
  }

  lemma ReduceDependencies(g: Graph)
    requires EdgesWellFormed(NodeNames(g), g.edges)
    ensures Dependencies(Reduce(g)) == Reduced(Dependencies(g))
  {
    KeptIff(g, |g.edges|);
    assert g.edges[..|g.edges|] == g.edges;
    forall a: Arc
      ensures a in Dependencies(Reduce(g)) <==> a in Reduced(Dependencies(g))
    {
      var e := Edge(a.0, a.1, false);
      DependencyIff(g, a.0, a.1);
      DependencyIff(Reduce(g), a.0, a.1);
      if e in g.edges {
        var i :| 0 <= i < |g.edges| && g.edges[i] == e;
        RedundantIff(g, e);
      }
    }
  }

  lemma ReduceWellFormed(fold: Fold, g: Graph, finalCheck: bool)
    requires WellFormed(fold, g, finalCheck)
    ensures WellFormed(fold, Reduce(g), finalCheck)
  {
    KeptDistinct(g, |g.edges|);
    KeptIff(g, |g.edges|);
    assert g.edges[..|g.edges|] == g.edges;
  }

  lemma ReduceDownstream(g: Graph, start: string)
    requires EdgesWellFormed(NodeNames(g), g.edges) && Acyclic(Dependencies(g))
    ensures Downstream.DownstreamSet(Reduce(g), start) == Downstream.DownstreamSet(g, start)
  {
    ReduceDependencies(g);
    forall v
      ensures v in Downstream.DownstreamSet(Reduce(g), start) <==> v in Downstream.DownstreamSet(g, start)
    {
      Downstream.DownstreamIffReaches(g, start, v);
      Downstream.DownstreamIffReaches(Reduce(g), start, v);
      ReducedKeepsReachability(Dependencies(g), start, v);
    }
  }

  lemma {:induction false} KeptPrefix(g: Graph, m: nat, n: nat)
    requires m <= n <= |g.edges|
    ensures |Kept(g, m)| <= |Kept(g, n)|
    ensures Kept(g, m) == Kept(g, n)[..|Kept(g, m)|]
  {
    if m < n {
      KeptPrefix(g, m, n - 1);
    }
  }

  lemma {:induction false} ReduceInvalidations(g: Graph, n: nat)
    requires n <= |g.edges| && EdgesWellFormed(NodeNames(g), g.edges) && Acyclic(Dependencies(g))
    ensures |Kept(g, n)| <= |Reduce(g).edges|
    ensures InvalidationWarnings(Reduce(g), |Kept(g, n)|) == InvalidationWarnings(g, n)
  {
    KeptPrefix(g, n, |g.edges|);
    if n > 0 {
      ReduceInvalidations(g, n - 1);
      var e := g.edges[n - 1];
      if !Redundant(g, e) {
        assert Reduce(g).edges[|Kept(g, n)| - 1] == e;
        ReduceDownstream(g, e.to);
      }
    }
  }

  lemma {:induction false} ReduceMarkers(g: Graph, n: nat)
    requires n <= |g.nodes|
    ensures MarkerWarnings(Reduce(g), n) == MarkerWarnings(g, n)
  {
    if n > 0 {
      ReduceMarkers(g, n - 1);
      ReduceSenders(g, g.nodes[n - 1].name);
    }
  }

  lemma ReduceSenders(g: Graph, name: string)
    ensures SendsFeedback(Reduce(g), name) <==> SendsFeedback(g, name)
  {
    KeptIff(g, |g.edges|);
    assert g.edges[..|g.edges|] == g.edges;
    if SendsFeedback(g, name) {
      var e :| e in g.edges && e.feedback && e.from == name;
      assert e in Reduce(g).edges;
    }
  }

  lemma ReduceWarnings(g: Graph)
    requires EdgesWellFormed(NodeNames(g), g.edges) && Acyclic(Dependencies(g))
    ensures Warnings(Reduce(g)) == Warnings(g)
  {
    ReduceMarkers(g, |g.nodes|);
    ReduceInvalidations(g, |g.edges|);
  }

  lemma ReduceRoutes(g: Graph)
    requires EdgesWellFormed(NodeNames(g), g.edges) && Acyclic(Dependencies(g)) && RoutesOrdered(g, |g.edges|)
    ensures RoutesOrdered(Reduce(g), |Reduce(g).edges|)
  {
    ReduceDependencies(g);
    KeptIff(g, |g.edges|);
    forall i | 0 <= i < |Reduce(g).edges| && Reduce(g).edges[i].feedback
      ensures Ordered(Reduce(g), Reduce(g).edges[i])
    {
      var e := Reduce(g).edges[i];
      assert e in Kept(g, |g.edges|) && e in g.edges[..|g.edges|];
      var j :| 0 <= j < |g.edges| && g.edges[j] == e;
      assert Ordered(g, g.edges[j]);
      ReducedKeepsReachability(Dependencies(g), e.to, e.from);
    }
  }

  /** Deleting the redundant dependencies keeps the order, the roots and the terminals. */
  lemma ReduceOrder(g: Graph, p: Plan)
    requires EdgesWellFormed(NodeNames(g), g.edges) && Acyclic(Dependencies(g)) && IsOrder(g, p)
    ensures IsOrder(Reduce(g), p)
  {
    var d, names := Dependencies(g), NodeNames(g);
    ReduceDependencies(g);
    ReducedKeepsLayers(d, names, p.batches);
    ReducedKeepsRoots(d, names);
    ReducedKeepsTerminals(d, names);
    assert NodeNames(Reduce(g)) == names;
  }

  /** Main result: the graph without its redundant dependencies is accepted with the identical plan,
      and with the same reachability. */
  lemma ReducedGraphKeepsPlan(fold: Fold, g: Graph, finalCheck: bool, plan: Plan)
    requires Answers(fold, g, finalCheck, false, Ok(plan))
    ensures Answers(fold, Reduce(g), finalCheck, true, Ok(plan))
    ensures forall u, v :: Reaches(Dependencies(Reduce(g)), u, v) <==> Reaches(Dependencies(g), u, v)
  {
    var d := Dependencies(g);
    ReduceWellFormed(fold, g, finalCheck);
    ReduceDependencies(g);
    ReducedAcyclic(d);
    ReduceRoutes(g);
    ReducedHasNoRedundancy(d);
    NoneRedundantIff(Reduce(g));
    ReduceOrder(g, plan);
    ReduceWarnings(g);
    forall u, v
      ensures Reaches(Dependencies(Reduce(g)), u, v) <==> Reaches(d, u, v)
    {
      ReducedKeepsReachability(d, u, v);
    }
  }

  /** The redundant dependency edges among the first `n`, in order. */
  ghost function RedundantArcs(g: Graph, n: nat): seq<Arc>
    requires n <= |g.edges|
  {
    if n == 0 then []
    else
      var e := g.edges[n - 1];
      RedundantArcs(g, n - 1) + (if Redundant(g, e) then [(e.from, e.to)] else [])
  }

  ghost predicate ReportsArcs(errors: seq<Diagnostic>, arcs: seq<Arc>) {
    |errors| == |arcs| && forall i :: 0 <= i < |arcs| ==> errors[i].RedundantDependency? && errors[i].arc == arcs[i]
  }

  lemma {:induction false} ReportIsExact(g: Graph, n: nat, errors: seq<Diagnostic>)
    requires n <= |g.edges| && RedundancyReport(g, n, errors)
    ensures ReportsArcs(errors, RedundantArcs(g, n))
  {
    if n > 0 {
      if Redundant(g, g.edges[n - 1]) {
        ReportIsExact(g, n - 1, errors[..|errors| - 1]);
      } else {
        ReportIsExact(g, n - 1, errors);
      }
    }
  }

  /** What an accepted older graph is answered today: the same plan, or exactly one E209 for each
      redundant dependency edge. */
  lemma LegacyOrRedundant(fold: Fold, g: Graph, finalCheck: bool, plan: Plan, r: Result<Plan, seq<Diagnostic>>)
    requires Answers(fold, g, finalCheck, false, Ok(plan))
    requires Answers(fold, g, finalCheck, true, r)
    ensures r.Ok? <==> RedundantArcs(g, |g.edges|) == []
    ensures r.Ok? ==> r.value == plan
    ensures r.Err? ==> ReportsArcs(r.error, RedundantArcs(g, |g.edges|))
  {
    if NoneRedundant(g, |g.edges|) {
      NoRedundantArcs(g, |g.edges|);
      PlanUnique(g, plan, r.value);
    } else {
      ReportIsExact(g, |g.edges|, r.error);
      RedundancyReportIff(g, |g.edges|, r.error);
    }
  }

  lemma {:induction false} NoRedundantArcs(g: Graph, n: nat)
    requires n <= |g.edges| && NoneRedundant(g, n)
    ensures RedundantArcs(g, n) == []
  {
    if n > 0 {
      NoRedundantArcs(g, n - 1);
    }
  }

  lemma PlanUnique(g: Graph, p: Plan, q: Plan)
    requires IsPlan(g, p) && IsPlan(g, q)
    ensures p == q
  {
    Layering.LayeredUnique(Dependencies(g), NodeNames(g), p.batches, q.batches);
  }

  /** The compiler has exactly one answer, down to the paths in the diagnostics. */
  lemma AnswerUnique(fold: Fold, g: Graph, finalCheck: bool, rejectRedundant: bool,
                     r: Result<Plan, seq<Diagnostic>>, s: Result<Plan, seq<Diagnostic>>)
    requires Answers(fold, g, finalCheck, rejectRedundant, r) && Answers(fold, g, finalCheck, rejectRedundant, s)
    ensures r == s
  {
    if r.Ok? && s.Ok? {
      PlanUnique(g, r.value, s.value);
    } else if rejectRedundant && WellFormed(fold, g, finalCheck) && Acyclic(Dependencies(g))
              && RoutesOrdered(g, |g.edges|) {
      ReportUnique(g, |g.edges|, r.error, s.error);
    }
  }

  lemma {:induction false} ReportUnique(g: Graph, n: nat, a: seq<Diagnostic>, b: seq<Diagnostic>)
    requires n <= |g.edges| && RedundancyReport(g, n, a) && RedundancyReport(g, n, b)
    ensures a == b
  {
    if n > 0 {
      var e := g.edges[n - 1];
      if Redundant(g, e) {
        var a', b' := a[..|a| - 1], b[..|b| - 1];
        ReportUnique(g, n - 1, a', b');
        AlternatePath.FirstPathUnique(AlternatePath.Detour(g, e.from, e.to), a[|a| - 1].path, b[|b| - 1].path, e.from, e.to);
        assert a == a' + [a[|a| - 1]];
        assert b == b' + [b[|b| - 1]];
      } else {
        ReportUnique(g, n - 1, a, b);
      }
    }
  }

  /** What is accepted, and what an accepted graph is: its own transitive reduction. */
  lemma AcceptedIsTransitiveReduction(fold: Fold, g: Graph, finalCheck: bool, r: Result<Plan, seq<Diagnostic>>)
    requires Answers(fold, g, finalCheck, true, r)
    ensures r.Ok? <==>
      && WellFormed(fold, g, finalCheck) && Acyclic(Dependencies(g))
      && RoutesOrdered(g, |g.edges|) && NoRedundantArc(Dependencies(g))
    ensures r.Ok? ==> forall u, v :: (u, v) in Dependencies(g) <==>
      Follows(Dependencies(g), u, v) && forall w :: !Between(Dependencies(g), u, w, v)
  {
    if WellFormed(fold, g, finalCheck) {
      NoneRedundantIff(g);
    }
    if r.Ok? {
      forall u, v
        ensures (u, v) in Dependencies(g) <==>
          Follows(Dependencies(g), u, v) && forall w :: !Between(Dependencies(g), u, w, v)
      {
        ArcIffCovers(Dependencies(g), u, v);
      }
    }
  }

  /** Two accepted graphs that order the same pairs have the same dependency edges. */
  lemma SameOrderSameDependencies(fold: Fold, g: Graph, h: Graph, finalCheck: bool, p: Plan, q: Plan)
    requires Answers(fold, g, finalCheck, true, Ok(p)) && Answers(fold, h, finalCheck, true, Ok(q))
    requires forall u, v :: Reaches(Dependencies(g), u, v) <==> Reaches(Dependencies(h), u, v)
    ensures Dependencies(g) == Dependencies(h)
  {
    NoneRedundantIff(g);
    NoneRedundantIff(h);
    ReductionUnique(Dependencies(g), Dependencies(h));
  }

  /** Batches, roots and terminals depend on the nodes and dependencies only, not on how they are listed. */
  lemma ListingOrderIrrelevant(fold: Fold, g: Graph, h: Graph, finalCheck: bool, reject: bool, p: Plan, q: Plan)
    requires Answers(fold, g, finalCheck, reject, Ok(p)) && Answers(fold, h, finalCheck, reject, Ok(q))
    requires NodeNames(g) == NodeNames(h) && Dependencies(g) == Dependencies(h)
    ensures p.batches == q.batches && p.roots == q.roots && p.terminals == q.terminals
  {
    Layering.LayeredUnique(Dependencies(g), NodeNames(g), p.batches, q.batches);
  }

  /** The same nodes and edges, listed in any order. */
  ghost predicate Relisted(g: Graph, h: Graph) {
    multiset(g.nodes) == multiset(h.nodes) && multiset(g.edges) == multiset(h.edges)
  }

  lemma NodesWellFormedKept(fold: Fold, a: seq<Node>, b: seq<Node>)
    requires multiset(a) == multiset(b) && NodesWellFormed(fold, a)
    ensures NodesWellFormed(fold, b)
  {
    var folded := (n: Node) => fold(n.name);
    SameMembers(a, b);
    assert DistinctBy(folded, a);
    DistinctByKept(folded, a, b);
    forall i, j | 0 <= i < j < |b|
      ensures fold(b[i].name) != fold(b[j].name)
    {
      assert folded(b[i]) != folded(b[j]);
    }
    forall i | 0 <= i < |b|
      ensures b[i] in a
    {
      assert b[i] in b;
    }
  }

  lemma EdgesWellFormedKept(names: set<string>, a: seq<Edge>, b: seq<Edge>)
    requires multiset(a) == multiset(b) && EdgesWellFormed(names, a)
    ensures EdgesWellFormed(names, b)
  {
    var ends := (e: Edge) => (e.from, e.to);
    SameMembers(a, b);
    assert DistinctBy(ends, a);
    DistinctByKept(ends, a, b);
    forall i, j | 0 <= i < j < |b|
      ensures (b[i].from, b[i].to) != (b[j].from, b[j].to)
    {
      assert ends(b[i]) != ends(b[j]);
    }
    forall i | 0 <= i < |b|
      ensures b[i] in a
    {
      assert b[i] in b;
    }
  }

  lemma RelistedIs(g: Graph, h: Graph)
    requires Relisted(g, h)
    ensures NodeNames(g) == NodeNames(h) && Dependencies(g) == Dependencies(h)
    ensures (g.nodes != [] <==> h.nodes != []) && forall e :: e in g.edges <==> e in h.edges
  {
    SameMembers(g.nodes, h.nodes);
    SameMembers(g.edges, h.edges);
  }

  lemma RoutesOrderedKept(g: Graph, h: Graph)
    requires Relisted(g, h) && RoutesOrdered(g, |g.edges|)
    ensures RoutesOrdered(h, |h.edges|)
  {
    RelistedIs(g, h);
    forall i | 0 <= i < |h.edges| && h.edges[i].feedback
      ensures Ordered(h, h.edges[i])
    {
      assert h.edges[i] in g.edges;
      var j :| 0 <= j < |g.edges| && g.edges[j] == h.edges[i];
      assert Ordered(g, g.edges[j]);
    }
  }

  lemma AcceptedKept(fold: Fold, g: Graph, h: Graph, finalCheck: bool, reject: bool,
                     p: Plan, s: Result<Plan, seq<Diagnostic>>)
    requires Relisted(g, h)
    requires Answers(fold, g, finalCheck, reject, Ok(p)) && Answers(fold, h, finalCheck, reject, s)
    ensures s.Ok?
  {
    RelistedIs(g, h);
    NodesWellFormedKept(fold, g.nodes, h.nodes);
    EdgesWellFormedKept(NodeNames(g), g.edges, h.edges);
    assert WellFormed(fold, h, finalCheck);
    RoutesOrderedKept(g, h);
    NoneRedundantIff(g);
    NoneRedundantIff(h);
  }

  /** Listing nodes and edges in another order keeps a graph accepted or refused, and its order. */
  lemma AcceptanceOrderIrrelevant(fold: Fold, g: Graph, h: Graph, finalCheck: bool, reject: bool,
                                  r: Result<Plan, seq<Diagnostic>>, s: Result<Plan, seq<Diagnostic>>)
    requires Relisted(g, h)
    requires Answers(fold, g, finalCheck, reject, r) && Answers(fold, h, finalCheck, reject, s)
    ensures r.Ok? <==> s.Ok?
    ensures r.Ok? ==> r.value.batches == s.value.batches && r.value.roots == s.value.roots
                      && r.value.terminals == s.value.terminals
  {
    if r.Ok? {
      AcceptedKept(fold, g, h, finalCheck, reject, r.value, s);
      RelistedIs(g, h);
      ListingOrderIrrelevant(fold, g, h, finalCheck, reject, r.value, s.value);
    } else if s.Ok? {
      AcceptedKept(fold, h, g, finalCheck, reject, s.value, r);
    }
  }

  /** An accepted feedback route goes back to a node whose invalidation set holds its source. */
  lemma FeedbackSourceIsInvalidated(fold: Fold, g: Graph, finalCheck: bool, reject: bool, p: Plan, e: Edge)
    requires Answers(fold, g, finalCheck, reject, Ok(p))
    requires e in g.edges && e.feedback
    ensures e.from in Downstream.DownstreamSet(g, e.to)
  {
    var i :| 0 <= i < |g.edges| && g.edges[i] == e;
    assert Ordered(g, g.edges[i]);
    Downstream.DownstreamIffReaches(g, e.to, e.from);
  }
}
