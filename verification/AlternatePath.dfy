/** The breadth-first search for a dependency path that avoids one direct edge. */
module AlternatePath {
  import opened Wrappers
  import opened Names
  import opened Paths
  import opened Model

  type Parents = map<string, Option<string>>
  type Routes = map<string, seq<string>>

  /** The dependency arcs without the direct one from `source` to `target`. */
  ghost function Detour(g: Graph, source: string, target: string): set<Arc> {
    Dependencies(g) - {(source, target)}
  }

  /** No path with the same ends comes earlier: none is shorter, and among the equally short ones
      none is lexicographically less. */
  ghost predicate FirstPath(d: set<Arc>, p: seq<string>, u: string, v: string) {
    && PathBetween(d, p, u, v)
    && forall q :: PathBetween(d, q, u, v) ==> NotAfter(p, q)
  }

  lemma FirstPathUnique(d: set<Arc>, p: seq<string>, q: seq<string>, u: string, v: string)
    requires FirstPath(d, p, u, v) && FirstPath(d, q, u, v)
    ensures p == q
  {
    if p != q {
      BeforeNotAfter(p, q);
    }
  }

  lemma Shortcut(d: set<Arc>, p: seq<string>, i: nat, j: nat)
    requires Path(d, p) && i < j < |p| && p[i] == p[j]
    ensures exists q :: PathBetween(d, q, p[0], p[|p| - 1]) && |q| < |p|
  {
    Slice(d, p, 0, i + 1);
    Slice(d, p, j, |p|);
    Join(d, p[0..i + 1], p[j..|p|]);
    assert PathBetween(d, p[0..i + 1] + p[j..|p|][1..], p[0], p[|p| - 1]);
  }

  /** A shortest path repeats no node. */
  lemma FirstPathSimple(d: set<Arc>, p: seq<string>, u: string, v: string)
    requires FirstPath(d, p, u, v)
    ensures Simple(p)
  {
    forall i, j | 0 <= i < j < |p|
      ensures p[i] != p[j]
    {
      if p[i] == p[j] {
        Shortcut(d, p, i, j);
      }
    }
  }

  // ----- the state of the search

  /** `routes` is the tree the search has grown: what `previous` spells out when it is followed. */
  ghost predicate Spelled(source: string, previous: Parents, routes: Routes) {
    && previous.Keys == routes.Keys
    && source in routes && routes[source] == [source] && previous[source] == None
    && forall v {:trigger previous[v]} :: v in routes && v != source ==>
         previous[v].Some? && previous[v].value in routes && routes[v] == routes[previous[v].value] + [v]
  }

  ghost predicate AllFirst(d: set<Arc>, source: string, routes: Routes) {
    forall v {:trigger FirstPath(d, routes[v], source, v)} :: v in routes ==> FirstPath(d, routes[v], source, v)
  }

  ghost predicate InTurn(routes: Routes, order: seq<string>, i: nat, j: nat)
    requires i < j < |order|
  {
    order[i] in routes && order[j] in routes && Before(routes[order[i]], routes[order[j]])
  }

  /** `order` lists the tree as it was grown, which is the order of the routes. */
  ghost predicate InOrder(routes: Routes, order: seq<string>) {
    && routes.Keys == Elements(order)
    && forall i, j {:trigger InTurn(routes, order, i, j)} :: 0 <= i < j < |order| ==> InTurn(routes, order, i, j)
  }

  ghost predicate Grown(d: set<Arc>, source: string, previous: Parents, routes: Routes, order: seq<string>) {
    Spelled(source, previous, routes) && AllFirst(d, source, routes) && InOrder(routes, order)
  }

  /** The first `n` nodes of `order` have been expanded. */
  ghost predicate Expanded(d: set<Arc>, routes: Routes, order: seq<string>, n: nat)
    requires n <= |order|
  {
    forall i, v {:trigger (order[i], v) in d} :: 0 <= i < n && (order[i], v) in d ==> v in routes
  }

  /** Every node but the source was found from `name` or from one before it. */
  ghost predicate FoundUpTo(previous: Parents, routes: Routes, name: string) {
    forall v {:trigger previous[v]} :: v in previous && previous[v].Some? ==>
      name in routes && previous[v].value in routes
      && (previous[v].value == name || Before(routes[previous[v].value], routes[name]))
  }

  ghost predicate FoundBefore(previous: Parents, routes: Routes, name: string) {
    FoundUpTo(previous, routes, name)
    && forall v {:trigger previous[v]} :: v in previous ==> previous[v] != Some(name)
  }

  lemma Start(d: set<Arc>, source: string)
    ensures Grown(d, source, map[source := None], map[source := [source]], [source])
  {
    assert PathBetween(d, [source], source, source);
    forall q | PathBetween(d, q, source, source)
      ensures NotAfter([source], q)
    {
      assert |q| == 1 ==> q == [source];
    }
  }

  lemma LastInside(s: set<string>, q: seq<string>) returns (i: nat)
    requires q != [] && q[0] in s && q[|q| - 1] !in s
    ensures i + 1 < |q| && q[i] in s && q[i + 1] !in s
  {
    i := 0;
    while q[i + 1] in s
      invariant i + 1 < |q| && q[i] in s
      decreases |q| - i
    {
      i := i + 1;
    }
  }

  /** A node with a dependent outside the tree is not before the one being expanded. */
  lemma AtOrAfter(d: set<Arc>, source: string, previous: Parents, routes: Routes, order: seq<string>, n: nat,
                  u: string, v: string)
    requires Grown(d, source, previous, routes, order) && n < |order| && Expanded(d, routes, order, n)
    requires u in routes && v !in routes && (u, v) in d
    ensures order[n] in routes && NotAfter(routes[order[n]], routes[u])
  {
    assert u in Elements(order);
    var i :| 0 <= i < |order| && order[i] == u;
    assert order[n] in Elements(order);
    assert i >= n;
    assert i > n ==> InTurn(routes, order, n, i);
  }

  /** A node outside the tree is farther away than the node being expanded. */
  lemma OutsideIsFarther(d: set<Arc>, source: string, previous: Parents, routes: Routes, order: seq<string>, n: nat,
                         q: seq<string>)
    requires Grown(d, source, previous, routes, order) && n < |order| && Expanded(d, routes, order, n)
    requires Path(d, q) && q[0] == source && q[|q| - 1] !in routes
    ensures order[n] in routes && |routes[order[n]]| < |q|
  {
    var i := LastInside(routes.Keys, q);
    assert Step(d, q, i);
    AtOrAfter(d, source, previous, routes, order, n, q[i], q[i + 1]);
    Slice(d, q, 0, i + 1);
    assert FirstPath(d, routes[q[i]], source, q[i]);
    assert NotAfter(routes[q[i]], q[0..i + 1]);
  }

  lemma NotAfterAppend(p: seq<string>, q: seq<string>, r: seq<string>, v: string)
    requires NotAfter(p, q) && NotAfter(q, r)
    ensures NotAfter(p + [v], r + [v])
  {
    if p != r {
      if p != q && q != r {
        BeforeTransitive(p, q, r);
      }
      BeforeAppend(p, v, r, v);
    }
  }

  /** The route through the node being expanded comes first among all paths to a new node. */
  lemma NewRouteFirst(d: set<Arc>, source: string, previous: Parents, routes: Routes, order: seq<string>, n: nat,
                      v: string)
    requires Grown(d, source, previous, routes, order) && n < |order| && Expanded(d, routes, order, n)
    requires (order[n], v) in d && v !in routes
    ensures order[n] in routes && FirstPath(d, routes[order[n]] + [v], source, v)
  {
    assert order[n] in Elements(order);
    var p := routes[order[n]];
    assert FirstPath(d, p, source, order[n]);
    Extend(d, p, v);
    forall q | PathBetween(d, q, source, v)
      ensures NotAfter(p + [v], q)
    {
      assert |q| > 1;
      var q', u := q[0..|q| - 1], q[|q| - 2];
      Slice(d, q, 0, |q| - 1);
      assert Step(d, q, |q| - 2);
      assert q == q' + [v] && (u, v) in d;
      if u in routes {
        AtOrAfter(d, source, previous, routes, order, n, u, v);
        assert FirstPath(d, routes[u], source, u);
        NotAfterAppend(p, routes[u], q', v);
      } else {
        OutsideIsFarther(d, source, previous, routes, order, n, q');
      }
    }
  }

  /** The route of the last node found comes before the one about to be added. */
  lemma NewRouteLast(source: string, previous: Parents, routes: Routes, last: string, name: string, v: string)
    requires Spelled(source, previous, routes) && last in routes && name in routes
    requires NotAfter(routes[name], routes[last]) && FoundUpTo(previous, routes, name)
    requires previous[last] == Some(name) ==> Less(last, v)
    ensures Before(routes[last], routes[name] + [v])
  {
    if last != source {
      BeforeAppend(routes[previous[last].value], last, routes[name], v);
    }
  }

  lemma SpelledGrows(source: string, previous: Parents, routes: Routes, name: string, v: string)
    requires Spelled(source, previous, routes) && name in routes && v !in routes
    ensures Spelled(source, previous[v := Some(name)], routes[v := routes[name] + [v]])
  {
    assert previous[v := Some(name)].Keys == routes[v := routes[name] + [v]].Keys;
  }

  lemma AllFirstGrows(d: set<Arc>, source: string, routes: Routes, v: string, p: seq<string>)
    requires AllFirst(d, source, routes) && FirstPath(d, p, source, v)
    ensures AllFirst(d, source, routes[v := p])
  {
    var routes' := routes[v := p];
    forall u {:trigger FirstPath(d, routes'[u], source, u)} | u in routes'
      ensures FirstPath(d, routes'[u], source, u)
    {
      if u != v {
        assert FirstPath(d, routes[u], source, u);
      }
    }
  }

  lemma InOrderGrows(routes: Routes, order: seq<string>, v: string, p: seq<string>)
    requires InOrder(routes, order) && order != [] && v !in routes
    requires order[|order| - 1] in routes && Before(routes[order[|order| - 1]], p)
    ensures InOrder(routes[v := p], order + [v])
  {
    var routes', order' := routes[v := p], order + [v];
    ElementsAppend(order, v);
    assert routes'.Keys == Elements(order');
    forall i: nat, j: nat {:trigger InTurn(routes', order', i, j)} | i < j < |order'|
      ensures InTurn(routes', order', i, j)
    {
      var last := |order| - 1;
      assert order'[i] == order[i] && order'[i] in Elements(order);
      if j < |order| {
        assert InTurn(routes, order, i, j);
        assert order'[j] == order[j] && order'[j] in Elements(order);
      } else if i < last {
        assert InTurn(routes, order, i, last);
        BeforeTransitive(routes[order[i]], routes[order[last]], p);
      }
    }
  }

  lemma ElementsAppend(order: seq<string>, v: string)
    ensures Elements(order + [v]) == Elements(order) + {v}
  {
  }

  lemma Unreachable(d: set<Arc>, source: string, target: string, routes: Routes, order: seq<string>)
    requires source in routes && target !in routes && routes.Keys == Elements(order)
    requires Expanded(d, routes, order, |order|)
    ensures !Reaches(d, source, target)
  {
    forall a | a in d && a.0 in Elements(order)
      ensures a.1 in Elements(order)
    {
      var i :| 0 <= i < |order| && order[i] == a.0;
      assert (order[i], a.1) in d;
    }
    if Reaches(d, source, target) {
      var p :| PathBetween(d, p, source, target);
      assert p[|p| - 1] in p;
      ClosedKeepsPath(d, Elements(order), p);
    }
  }

  function Reverse(p: seq<string>): seq<string> {
    if p == [] then [] else [p[|p| - 1]] + Reverse(p[..|p| - 1])
  }

  lemma ReverseAppend(p: seq<string>, v: string)
    ensures Reverse(p + [v]) == [v] + Reverse(p)
  {
    assert (p + [v])[..|p|] == p;
  }

  lemma ParentRoute(source: string, previous: Parents, routes: Routes, v: string, rest: seq<string>)
    requires Spelled(source, previous, routes) && v in routes && previous[v].Some?
    ensures previous[v].value in routes && |routes[previous[v].value]| < |routes[v]|
    ensures routes[previous[v].value] + ([v] + rest) == routes[v] + rest
  {
    assert v != source;
  }

  /** Following `previous` back from a node spells its route, last node first. */
  method FollowBack(ghost source: string, previous: Parents, ghost routes: Routes, last: string) returns (p: seq<string>)
    requires Spelled(source, previous, routes) && last in routes
    ensures p == routes[last]
  {
    var path := [last];
    var at := last;
    ghost var rest: seq<string> := [];
    ReverseAppend([], last);
    while at in previous && previous[at].Some?
      invariant at in routes && Reverse(path) == [at] + rest && routes[at] + rest == routes[last]
      decreases |routes[at]|
    {
      ParentRoute(source, previous, routes, at, rest);
      rest := [at] + rest;
      at := previous[at].value;
      ReverseAppend(path, at);
      path := path + [at];
    }
    p := Reverse(path);
  }

  /** The dependents of `name`, without the one the direct edge leads to, in ascending order. */
  function Neighbors(g: Graph, source: string, target: string, name: string): (r: seq<string>)
    ensures Ascending(r)
  {
    Sorted(set e | e in g.edges && !e.feedback && e.from == name && !(e.from == source && e.to == target) :: e.to)
  }

  lemma NeighborIff(g: Graph, source: string, target: string, name: string, v: string)
    ensures v in Neighbors(g, source, target, name) <==> (name, v) in Detour(g, source, target)
  {
    var r := Neighbors(g, source, target, name);
    assert v in r <==> v in Elements(r);
    DependencyIff(g, name, v);
    if Edge(name, v, false) in g.edges && (name, v) != (source, target) {
      var e := Edge(name, v, false);
      assert e in g.edges && !e.feedback && e.from == name && e.to == v;
    }
  }

  /** The node found last precedes the neighbour to be visited next, if it is a neighbour too. */
  ghost predicate Precedes(previous: Parents, order: seq<string>, name: string, neighbors: seq<string>, k: nat)
    requires order != []
  {
    var last := order[|order| - 1];
    last in previous && (previous[last] == Some(name) && k < |neighbors| ==> Less(last, neighbors[k]))
  }

  lemma LastRoute(d: set<Arc>, source: string, previous: Parents, routes: Routes, order: seq<string>, n: nat)
    requires Grown(d, source, previous, routes, order) && n < |order|
    ensures order[n] in routes && order[|order| - 1] in routes
    ensures NotAfter(routes[order[n]], routes[order[|order| - 1]])
  {
    assert order[n] in Elements(order) && order[|order| - 1] in Elements(order);
    assert n < |order| - 1 ==> InTurn(routes, order, n, |order| - 1);
  }

  lemma PrecedesNext(previous: Parents, order: seq<string>, name: string, neighbors: seq<string>, k: nat)
    requires Ascending(neighbors) && k < |neighbors| && order != []
    requires Precedes(previous, order, name, neighbors, k)
    ensures Precedes(previous, order, name, neighbors, k + 1)
  {
    var last := order[|order| - 1];
    if previous[last] == Some(name) && k + 1 < |neighbors| {
      LessTransitive(last, neighbors[k], neighbors[k + 1]);
    }
  }

  ghost predicate Scanned(routes: Routes, neighbors: seq<string>, k: nat)
    requires k <= |neighbors|
  {
    forall j :: 0 <= j < k ==> neighbors[j] in routes
  }

  /** One turn of the search: the dependents of `order[n]` are visited in ascending order, and each new
      one joins the tree and the queue, until the target is met. */
  method Expand(g: Graph, source: string, target: string, name: string, previous0: Parents, queue0: seq<string>,
                ghost routes0: Routes, ghost order0: seq<string>, ghost n: nat)
    returns (met: bool, previous: Parents, queue: seq<string>, ghost routes: Routes, ghost order: seq<string>)
    requires Grown(Detour(g, source, target), source, previous0, routes0, order0)
    requires n < |order0| && name == order0[n] && queue0 == order0[n + 1..]
    requires Expanded(Detour(g, source, target), routes0, order0, n)
    requires FoundBefore(previous0, routes0, name)
    requires target !in routes0 || target == source
    ensures Grown(Detour(g, source, target), source, previous, routes, order)
    ensures n < |order| && order[n] == name && queue == order[n + 1..]
    ensures met ==> source != target && target in routes
    ensures !met ==>
              && (target !in routes || target == source)
              && Expanded(Detour(g, source, target), routes, order, n + 1)
              && FoundUpTo(previous, routes, name)
    ensures routes.Keys <= routes0.Keys + Ends(Detour(g, source, target))
  {
    ghost var d := Detour(g, source, target);
    met, previous, queue, routes, order := false, previous0, queue0, routes0, order0;
    var neighbors := Neighbors(g, source, target, name);
    LastRoute(d, source, previous, routes, order, n);
    for k := 0 to |neighbors|
      invariant Grown(d, source, previous, routes, order)
      invariant n < |order| && order[n] == name && queue == order[n + 1..]
      invariant Expanded(d, routes, order, n) && FoundUpTo(previous, routes, name)
      invariant Precedes(previous, order, name, neighbors, k)
      invariant target !in routes || target == source
      invariant routes0.Keys <= routes.Keys <= routes0.Keys + Ends(d)
      invariant Scanned(routes, neighbors, k)
    {
      var next := neighbors[k];
      NeighborIff(g, source, target, name, next);
      if next !in previous {
        routes, order := Discover(d, source, previous, routes, order, n, name, neighbors, k);
        previous := previous[next := Some(name)];
        queue := queue + [next];
        if next == target {
          met := true;
          return;
        }
      } else {
        PrecedesNext(previous, order, name, neighbors, k);
      }
    }
    AllScanned(g, source, target, routes, order, n);
  }

  lemma DiscoverTree(d: set<Arc>, source: string, previous: Parents, routes: Routes, order: seq<string>, n: nat, v: string)
    requires Grown(d, source, previous, routes, order) && n < |order|
    requires Expanded(d, routes, order, n) && FoundUpTo(previous, routes, order[n])
    requires (order[n], v) in d && v !in routes
    requires order[|order| - 1] in previous && (previous[order[|order| - 1]] == Some(order[n]) ==> Less(order[|order| - 1], v))
    ensures order[n] in routes
    ensures Grown(d, source, previous[v := Some(order[n])], routes[v := routes[order[n]] + [v]], order + [v])
  {
    NewRouteFirst(d, source, previous, routes, order, n, v);
    LastRoute(d, source, previous, routes, order, n);
    NewRouteLast(source, previous, routes, order[|order| - 1], order[n], v);
    SpelledGrows(source, previous, routes, order[n], v);
    AllFirstGrows(d, source, routes, v, routes[order[n]] + [v]);
    InOrderGrows(routes, order, v, routes[order[n]] + [v]);
  }

  lemma FoundGrows(previous: Parents, routes: Routes, name: string, v: string, p: seq<string>)
    requires FoundUpTo(previous, routes, name) && name in routes && v !in routes
    ensures FoundUpTo(previous[v := Some(name)], routes[v := p], name)
  {
  }

  lemma ExpandedGrows(d: set<Arc>, routes: Routes, order: seq<string>, n: nat, v: string, p: seq<string>)
    requires n <= |order| && Expanded(d, routes, order, n)
    ensures Expanded(d, routes[v := p], order + [v], n)
  {
  }

  lemma ScanGrows(previous: Parents, routes: Routes, order: seq<string>, name: string, neighbors: seq<string>, k: nat,
                  p: seq<string>)
    requires Ascending(neighbors) && k < |neighbors| && Scanned(routes, neighbors, k)
    ensures Precedes(previous[neighbors[k] := Some(name)], order + [neighbors[k]], name, neighbors, k + 1)
    ensures Scanned(routes[neighbors[k] := p], neighbors, k + 1)
  {
  }

  lemma TailAppend(order: seq<string>, n: nat, v: string)
    requires n < |order|
    ensures (order + [v])[n] == order[n]
    ensures (order + [v])[n + 1..] == order[n + 1..] + [v]
  {
  }

  /** Finding `neighbors[k]` from `order[n]`. */
  lemma Discover(d: set<Arc>, source: string, previous: Parents, routes: Routes, order: seq<string>, n: nat,
                 name: string, neighbors: seq<string>, k: nat)
    returns (routes': Routes, order': seq<string>)
    requires Grown(d, source, previous, routes, order) && n < |order| && name == order[n]
    requires Expanded(d, routes, order, n) && FoundUpTo(previous, routes, name)
    requires Ascending(neighbors) && k < |neighbors|
    requires (name, neighbors[k]) in d && neighbors[k] !in routes
    requires Precedes(previous, order, name, neighbors, k)
    requires Scanned(routes, neighbors, k)
    ensures neighbors[k] in Ends(d) && routes'.Keys == routes.Keys + {neighbors[k]}
    ensures Grown(d, source, previous[neighbors[k] := Some(name)], routes', order')
    ensures n < |order'| && order'[n] == name
    ensures order'[n + 1..] == order[n + 1..] + [neighbors[k]]
    ensures Expanded(d, routes', order', n) && FoundUpTo(previous[neighbors[k] := Some(name)], routes', name)
    ensures Precedes(previous[neighbors[k] := Some(name)], order', name, neighbors, k + 1)
    ensures Scanned(routes', neighbors, k + 1)
  {
    var v := neighbors[k];
    DiscoverTree(d, source, previous, routes, order, n, v);
    var p := routes[name] + [v];
    routes', order' := routes[v := p], order + [v];
    FoundGrows(previous, routes, name, v, p);
    ExpandedGrows(d, routes, order, n, v, p);
    ScanGrows(previous, routes, order, name, neighbors, k, p);
    TailAppend(order, n, v);
    ArcEnds(d, name, v);
  }

  lemma AllScanned(g: Graph, source: string, target: string, routes: Routes, order: seq<string>, n: nat)
    requires n < |order|
    requires Expanded(Detour(g, source, target), routes, order, n)
    requires var neighbors := Neighbors(g, source, target, order[n]); Scanned(routes, neighbors, |neighbors|)
    ensures Expanded(Detour(g, source, target), routes, order, n + 1)
  {
    forall v | (order[n], v) in Detour(g, source, target)
      ensures v in routes
    {
      NeighborIff(g, source, target, order[n], v);
    }
  }

  lemma NextName(d: set<Arc>, source: string, previous: Parents, routes: Routes, order: seq<string>, n: nat)
    requires Grown(d, source, previous, routes, order) && n < |order| && FoundUpTo(previous, routes, order[n])
    ensures n + 1 < |order| ==> FoundBefore(previous, routes, order[n + 1])
  {
    if n + 1 < |order| {
      var name, next := order[n], order[n + 1];
      assert InTurn(routes, order, n, n + 1);
      forall v {:trigger previous[v]} | v in previous && previous[v].Some?
        ensures previous[v].value in routes && Before(routes[previous[v].value], routes[next]) && previous[v].value != next
      {
        var u := previous[v].value;
        if u != name {
          BeforeTransitive(routes[u], routes[name], routes[next]);
        }
        BeforeNotAfter(routes[u], routes[next]);
      }
    }
  }

  lemma Distinct(d: set<Arc>, source: string, previous: Parents, routes: Routes, order: seq<string>, universe: set<string>)
    requires Grown(d, source, previous, routes, order) && routes.Keys <= universe
    ensures |order| <= |universe|
  {
    assert forall v :: v in order ==> v in Elements(order);
    if |order| > |universe| {
      Pigeonhole(order, universe);
      var i, j :| 0 <= i < j < |order| && order[i] == order[j];
      assert InTurn(routes, order, i, j);
      BeforeNotAfter(routes[order[i]], routes[order[j]]);
    }
  }

  /** `alternate_dependency_path`. The path it reports is the first one in the order of length and
      then of names, so it does not depend on the order of the edges. */
  method Search(g: Graph, source: string, target: string) returns (r: Option<seq<string>>)
    ensures r.Some? <==> source != target && Reaches(Detour(g, source, target), source, target)
    ensures r.Some? ==> FirstPath(Detour(g, source, target), r.value, source, target) && Simple(r.value)
  {
    ghost var d := Detour(g, source, target);
    ghost var universe := {source} + Ends(d);
    var queue := [source];
    var previous: Parents := map[source := None];
    ghost var routes: Routes, order, n := map[source := [source]], [source], 0;
    Start(d, source);
    while queue != []
      invariant Grown(d, source, previous, routes, order)
      invariant n <= |order| && queue == order[n..]
      invariant Expanded(d, routes, order, n)
      invariant n < |order| ==> FoundBefore(previous, routes, order[n])
      invariant target !in routes || target == source
      invariant routes.Keys <= universe
      decreases |universe| - n
    {
      var name := queue[0];
      var met;
      met, previous, queue, routes, order := Expand(g, source, target, name, previous, queue[1..], routes, order, n);
      if met {
        var p := FollowBack(source, previous, routes, target);
        assert FirstPath(d, routes[target], source, target);
        FirstPathSimple(d, p, source, target);
        return Some(p);
      }
      Distinct(d, source, previous, routes, order, universe);
      NextName(d, source, previous, routes, order, n);
      n := n + 1;
    }
    assert n == |order|;
    if source != target {
      Unreachable(d, source, target, routes, order);
    }
    r := None;
  }
}
