/** The invalidation set of a feedback route: its target and all dependency descendants. */
module Downstream {
  import opened Names
  import opened Paths
  import opened Collections
  import opened Model

  /** `start` and everything that comes after it through dependency edges. */
  ghost function DownstreamSet(g: Graph, start: string): set<string> {
    Reachable(Dependencies(g), start)
  }

  lemma DownstreamIffReaches(g: Graph, start: string, v: string)
    ensures v in DownstreamSet(g, start) <==> Reaches(Dependencies(g), start, v)
  {
    ReachableIff(Dependencies(g), start, v);
  }

  function Dependents(g: Graph, name: string): set<string> {
    set e | e in g.edges && !e.feedback && e.from == name :: e.to
  }

  lemma DependentIff(g: Graph, name: string, v: string)
    ensures v in Dependents(g, name) <==> (name, v) in Dependencies(g)
  {
    DependencyIff(g, name, v);
    if (name, v) in Dependencies(g) {
      var e := Edge(name, v, false);
      assert e in g.edges && !e.feedback && e.from == name && e.to == v;
    }
  }

  /** One name of the work list: its dependents not seen before are seen, and become work. */
  method Scan(g: Graph, name: string, seen0: set<string>, pending0: seq<string>)
    returns (seen: set<string>, pending: seq<string>)
    ensures seen == seen0 + Dependents(g, name)
    ensures Elements(pending) == Elements(pending0) + (seen - seen0)
    ensures seen == seen0 ==> pending == pending0
  {
    seen, pending := seen0, pending0;
    for k := 0 to |g.edges|
      invariant seen == seen0 + Dependents(g.(edges := g.edges[..k]), name)
      invariant Elements(pending) == Elements(pending0) + (seen - seen0)
      invariant seen == seen0 ==> pending == pending0
    {
      var e := g.edges[k];
      OneMoreDependent(g, name, k);
      if !e.feedback && e.from == name && e.to !in seen {
        seen := seen + {e.to};
        assert Elements(pending + [e.to]) == Elements(pending) + {e.to};
        pending := pending + [e.to];
      }
    }
    assert g.edges[..|g.edges|] == g.edges;
  }

  lemma OneMoreDependent(g: Graph, name: string, k: nat)
    requires k < |g.edges|
    ensures Dependents(g.(edges := g.edges[..k + 1]), name) ==
            Dependents(g.(edges := g.edges[..k]), name)
            + (if !g.edges[k].feedback && g.edges[k].from == name then {g.edges[k].to} else {})
  {
    assert g.edges[..k + 1] == g.edges[..k] + [g.edges[k]];
  }

  /** Only the names still on the work list may have dependents not yet seen. */
  ghost predicate ClosedBut(g: Graph, seen: set<string>, open: set<string>) {
    forall v :: v in seen - open ==> Dependents(g, v) <= seen
  }

  /** The work list search of `downstream`: a stack of names whose dependents are still to be seen. */
  method Search(g: Graph, start: string) returns (seen: set<string>)
    ensures seen == DownstreamSet(g, start)
  {
    ghost var universe := {start} + Ends(Dependencies(g));
    seen := {start};
    var pending := [start];
    ReachesSelf(Dependencies(g), start);
    while pending != []
      invariant start in seen && seen <= universe
      invariant AllReached(Dependencies(g), start, seen)
      invariant Elements(pending) <= seen && ClosedBut(g, seen, Elements(pending))
      decreases |universe - seen|, |pending|
    {
      var name := pending[|pending| - 1];
      ghost var before, open := seen, Elements(pending);
      LastOfElements(pending);
      ScanReaches(g, start, seen, name);
      seen, pending := Scan(g, name, seen, pending[..|pending| - 1]);
      ScanCloses(g, before, open, name, seen, Elements(pending));
      if seen != before {
        FewerLeft(universe, before, seen);
      }
    }
    SearchComplete(g, start, seen);
  }

  lemma ScanReaches(g: Graph, start: string, seen: set<string>, name: string)
    requires AllReached(Dependencies(g), start, seen) && name in seen
    ensures AllReached(Dependencies(g), start, seen + Dependents(g, name))
    ensures Dependents(g, name) <= Ends(Dependencies(g))
  {
    forall v | v in Dependents(g, name)
      ensures Reaches(Dependencies(g), start, v) && v in Ends(Dependencies(g))
    {
      DependentIff(g, name, v);
      ReachedNext(Dependencies(g), start, seen, name, v);
    }
  }

  lemma ScanCloses(g: Graph, seen0: set<string>, open0: set<string>, name: string, seen: set<string>, open: set<string>)
    requires ClosedBut(g, seen0, open0)
    requires seen == seen0 + Dependents(g, name) && open0 <= open + {name} && seen - seen0 <= open
    ensures ClosedBut(g, seen, open)
  {
  }

  lemma SearchComplete(g: Graph, start: string, seen: set<string>)
    requires start in seen && seen <= {start} + Ends(Dependencies(g))
    requires AllReached(Dependencies(g), start, seen) && ClosedBut(g, seen, {})
    ensures seen == DownstreamSet(g, start)
  {
    var d := Dependencies(g);
    forall a | a in d && a.0 in seen
      ensures a.1 in seen
    {
      DependentIff(g, a.0, a.1);
      assert a.0 in seen - {};
    }
    AllReachedWithin(d, start, seen);
    ClosedHoldsReachable(d, start, seen);
  }

  /** Dependents of an invalidated node are invalidated; whatever a kept node depends on is kept. */
  lemma InvalidationIsClosed(g: Graph, target: string, u: string, v: string)
    requires Reaches(Dependencies(g), u, v)
    ensures u in DownstreamSet(g, target) ==> v in DownstreamSet(g, target)
    ensures v !in DownstreamSet(g, target) ==> u !in DownstreamSet(g, target)
  {
    DownstreamIffReaches(g, target, u);
    DownstreamIffReaches(g, target, v);
    if u in DownstreamSet(g, target) {
      ReachesTransitive(Dependencies(g), target, u, v);
    }
  }

  /** It is the least such set: every set with the target that is closed under dependents includes it. */
  lemma InvalidationIsLeast(g: Graph, target: string, s: set<string>)
    requires target in s
    requires forall a :: a in Dependencies(g) && a.0 in s ==> a.1 in s
    ensures DownstreamSet(g, target) <= s
  {
    ClosedHoldsReachable(Dependencies(g), target, s);
  }
}
