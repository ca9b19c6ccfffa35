/** Workspace file versions: each is captured once, from parents that are already there.

    `descends_from` asks for one version among the ancestors of another. That it is a partial order is not assumed:
    it follows from how versions are captured. */
module Versions {
  import opened Wrappers
  import opened Names
  import opened Paths
  import opened Collections

  /** Each saved version and its parents. */
  type Store = map<string, seq<string>>

  const LIMIT := 10_000

  ghost function Arcs(s: Store): set<Arc> {
    set v, p | v in s && p in s[v] :: (v, p)
  }

  lemma ArcIff(s: Store, v: string, p: string)
    ensures (v, p) in Arcs(s) <==> v in s && p in s[v]
  {}

  /** A version and all its ancestors. */
  ghost function Ancestry(s: Store, version: string): set<string> {
    Reachable(Arcs(s), version)
  }

  /** Every ancestor can be loaded, and there are not too many. */
  ghost predicate Loadable(s: Store, version: string) {
    Ancestry(s, version) <= s.Keys && |Ancestry(s, version)| <= LIMIT
  }

  /** `descends_from`, with a failure counted as no. */
  ghost predicate DescendsFrom(s: Store, version: string, parent: string) {
    Loadable(s, version) && parent in Ancestry(s, version)
  }

  // ----- the search

  /** The parents of every version found have been found or are on the work list. */
  ghost predicate ClosedBut(s: Store, found: set<string>, open: set<string>) {
    forall v :: v in found ==> v in s && Elements(s[v]) <= found + open
  }

  ghost predicate Searching(s: Store, version: string, found: set<string>, open: set<string>) {
    && version in found + open
    && AllReached(Arcs(s), version, found + open) && ClosedBut(s, found, open)
  }

  method Ancestors(s: Store, version: string) returns (r: Option<set<string>>)
    ensures r == if Loadable(s, version) then Some(Ancestry(s, version)) else None
  {
    var found: set<string> := {};
    var pending := [version];
    ReachesSelf(Arcs(s), version);
    assert Elements(pending) == {version};
    while pending != []
      invariant Searching(s, version, found, Elements(pending)) && |found| <= LIMIT
      decreases |Ancestry(s, version) - found|, |pending|
    {
      var next := pending[|pending| - 1];
      LastOfElements(pending);
      ghost var open := Elements(pending);
      pending := pending[..|pending| - 1];
      if next in found {
        AlreadyFound(s, version, found, open, next, Elements(pending));
      } else {
        FoundNext(s, version, found, open, next);
        ghost var before := found;
        found := found + {next};
        if |found| > LIMIT || next !in s {
          return None;
        }
        PushElements(pending, s[next]);
        Loaded(s, version, before, open, next, Elements(pending));
        pending := pending + s[next];
      }
    }
    FoundAll(s, version, found);
    r := Some(found);
  }

  /** One more version found: fewer are left, and too many are too many for the ancestry. */
  lemma FoundNext(s: Store, version: string, found: set<string>, open: set<string>, next: string)
    requires Searching(s, version, found, open) && next in open && next !in found
    ensures found + {next} <= Ancestry(s, version) && |found + {next}| <= |Ancestry(s, version)|
    ensures |Ancestry(s, version) - (found + {next})| < |Ancestry(s, version) - found|
  {
    AllReachedWithin(Arcs(s), version, found + {next});
    SubsetSize(found + {next}, Ancestry(s, version));
    FewerLeft(Ancestry(s, version), found, found + {next});
  }

  lemma AlreadyFound(s: Store, version: string, found: set<string>, open: set<string>, next: string, rest: set<string>)
    requires Searching(s, version, found, open) && next in found && open == rest + {next}
    ensures Searching(s, version, found, rest)
  {
    assert found + open == found + rest;
  }

  lemma Loaded(s: Store, version: string, found: set<string>, open: set<string>, next: string, rest: set<string>)
    requires Searching(s, version, found, open) && open == rest + {next} && next in s
    ensures Searching(s, version, found + {next}, rest + Elements(s[next]))
  {
    ParentsReached(s, version, next);
  }

  lemma PushElements(pending: seq<string>, more: seq<string>)
    ensures Elements(pending + more) == Elements(pending) + Elements(more)
  {}

  lemma ParentsReached(s: Store, version: string, v: string)
    requires Reaches(Arcs(s), version, v) && v in s
    ensures AllReached(Arcs(s), version, Elements(s[v])) && Elements(s[v]) <= Ends(Arcs(s))
  {
    forall p | p in Elements(s[v])
      ensures Reaches(Arcs(s), version, p) && p in Ends(Arcs(s))
    {
      ArcIff(s, v, p);
      ReachedNext(Arcs(s), version, {v}, v, p);
    }
  }

  lemma FoundAll(s: Store, version: string, found: set<string>)
    requires version in found && AllReached(Arcs(s), version, found) && ClosedBut(s, found, {})
    ensures found == Ancestry(s, version) && found <= s.Keys
  {
    AllReachedWithin(Arcs(s), version, found);
    forall a | a in Arcs(s) && a.0 in found
      ensures a.1 in found
    {
      ArcIff(s, a.0, a.1);
      assert a.1 in Elements(s[a.0]);
    }
    ClosedHoldsReachable(Arcs(s), version, found);
  }

  // ----- a partial order

  lemma DescendsTransitive(s: Store, a: string, b: string, c: string)
    requires DescendsFrom(s, a, b) && DescendsFrom(s, b, c)
    ensures DescendsFrom(s, a, c)
  {
    ReachableIff(Arcs(s), a, b);
    ReachableIff(Arcs(s), b, c);
    ReachableIff(Arcs(s), a, c);
    ReachesTransitive(Arcs(s), a, b, c);
  }

  lemma DescendsAntisymmetric(s: Store, a: string, b: string)
    requires Acyclic(Arcs(s)) && DescendsFrom(s, a, b) && DescendsFrom(s, b, a)
    ensures a == b
  {
    ReachableIff(Arcs(s), a, b);
    ReachableIff(Arcs(s), b, a);
    if a != b {
      ReachesSplit(Arcs(s), a, b);
      FollowsTransitive(Arcs(s), a, b, a);
    }
  }

  // ----- capturing

  datatype Capture = Capture(version: string, parents: seq<string>)

  /** `capture`: every parent is loaded first, and a saved version is never replaced. */
  function Captured(s: Store, c: Capture): Store {
    if (exists p :: p in c.parents && p !in s) || c.version in s then s else s[c.version := c.parents]
  }

  function Run(captures: seq<Capture>): Store {
    if captures == [] then map[] else Captured(Run(captures[..|captures| - 1]), captures[|captures| - 1])
  }

  ghost predicate Closed(s: Store) {
    forall v :: v in s ==> Elements(s[v]) <= s.Keys
  }

  lemma NoArcInto(s: Store, c: Capture, u: string)
    requires Closed(s) && c.version !in s && Elements(c.parents) <= s.Keys
    ensures (u, c.version) !in Arcs(s[c.version := c.parents])
  {
    var s' := s[c.version := c.parents];
    ArcIff(s', u, c.version);
    assert u in s ==> Elements(s[u]) <= s.Keys;
    assert u in s' ==> (c.version in s'[u] <==> c.version in Elements(s'[u]));
  }

  lemma CaptureKeepsAcyclic(s: Store, c: Capture)
    requires Closed(s) && Acyclic(Arcs(s)) && c.version !in s && Elements(c.parents) <= s.Keys
    ensures Acyclic(Arcs(s[c.version := c.parents]))
  {
    var s' := s[c.version := c.parents];
    forall v
      ensures !Follows(Arcs(s'), v, v)
    {
      if Follows(Arcs(s'), v, v) {
        OldCycle(s, c, v);
      }
    }
  }

  lemma OldCycle(s: Store, c: Capture, v: string)
    requires Closed(s) && c.version !in s && Elements(c.parents) <= s.Keys
    requires Follows(Arcs(s[c.version := c.parents]), v, v)
    ensures Follows(Arcs(s), v, v)
  {
    var p :| PathBetween(Arcs(s[c.version := c.parents]), p, v, v) && |p| >= 2;
    CycleIsOld(s, c, p);
    assert PathBetween(Arcs(s), p, v, v);
  }

  lemma CycleIsOld(s: Store, c: Capture, p: seq<string>)
    requires Closed(s) && c.version !in s && Elements(c.parents) <= s.Keys
    requires Path(Arcs(s[c.version := c.parents]), p) && |p| >= 2 && p[0] == p[|p| - 1]
    ensures Path(Arcs(s), p)
  {
    var s' := s[c.version := c.parents];
    forall i | 0 < i < |p|
      ensures p[i] != c.version
    {
      assert Step(Arcs(s'), p, i - 1);
      NoArcInto(s, c, p[i - 1]);
    }
    forall i {:trigger Step(Arcs(s), p, i)} | 0 <= i < |p| - 1
      ensures Step(Arcs(s), p, i)
    {
      assert Step(Arcs(s'), p, i);
      ArcIff(s', p[i], p[i + 1]);
      ArcIff(s, p[i], p[i + 1]);
    }
  }

  /** Over every run of captures, no version is its own ancestor and no parent is missing. */
  lemma {:induction false} RunsAreAcyclic(captures: seq<Capture>)
    ensures Closed(Run(captures)) && Acyclic(Arcs(Run(captures)))
  {
    if captures == [] {
      forall v
        ensures !Follows(Arcs(map[]), v, v)
      {
        if Follows(Arcs(map[]), v, v) {
          FollowsLastArc(Arcs(map[]), v, v);
        }
      }
    } else {
      var s, c := Run(captures[..|captures| - 1]), captures[|captures| - 1];
      RunsAreAcyclic(captures[..|captures| - 1]);
      if Captured(s, c) != s {
        assert Elements(c.parents) <= s.Keys;
        CaptureKeepsAcyclic(s, c);
      }
    }
  }
}
