/** Layered topological order: each batch is what becomes ready when the batches before it are done. */
module Layering {
  import opened Names
  import opened Paths
  import opened Collections

  ghost predicate EndsAt(d: set<Arc>, p: seq<string>, v: string) {
    Path(d, p) && p[|p| - 1] == v
  }

  ghost predicate DepthAtMost(d: set<Arc>, v: string, k: int) {
    forall p :: EndsAt(d, p, v) ==> |p| <= k + 1
  }

  /** The longest path that ends in `v` has `k` arcs. */
  ghost predicate Depth(d: set<Arc>, v: string, k: nat) {
    DepthAtMost(d, v, k) && exists p :: EndsAt(d, p, v) && |p| == k + 1
  }

  /** Every node is in the batch its longest incoming path selects, and nowhere else. */
  ghost predicate Layered(d: set<Arc>, names: set<string>, batches: seq<seq<string>>) {
    && (forall i :: 0 <= i < |batches| ==> batches[i] != [] && Ascending(batches[i]))
    && (forall i, v :: 0 <= i < |batches| && v in batches[i] ==> v in names && Depth(d, v, i))
    && (forall v :: v in names ==> Placed(batches, v))
  }

  ghost predicate Placed(batches: seq<seq<string>>, v: string) {
    exists i :: 0 <= i < |batches| && v in batches[i]
  }

  /** In or after a cycle: these nodes never become ready. */
  ghost predicate CycleBound(d: set<Arc>, v: string) {
    exists c :: OnCycle(d, c) && Reaches(d, c, v)
  }

  // ----- depth

  lemma DepthUnique(d: set<Arc>, v: string, j: nat, k: nat)
    requires Depth(d, v, j) && Depth(d, v, k)
    ensures j == k
  {
  }

  /** A longest path starts at a node nothing leads to. */
  lemma LongestStartsAtRoot(d: set<Arc>, v: string, k: nat, p: seq<string>)
    requires Depth(d, v, k) && EndsAt(d, p, v) && |p| == k + 1
    ensures Predecessors(d, p[0]) == {}
  {
    if u :| u in Predecessors(d, p[0]) {
      PredecessorIff(d, u, p[0]);
      Prepend(d, u, p);
      assert EndsAt(d, [u] + p, v);
    }
  }

  lemma DepthOfRoot(d: set<Arc>, v: string)
    requires Predecessors(d, v) == {}
    ensures Depth(d, v, 0)
  {
    assert EndsAt(d, [v], v);
    forall p | EndsAt(d, p, v)
      ensures |p| <= 1
    {
      if |p| > 1 {
        assert Step(d, p, |p| - 2);
        PredecessorIff(d, p[|p| - 2], v);
      }
    }
  }

  lemma DepthAfterPredecessors(d: set<Arc>, v: string, u: string, k: nat)
    requires (u, v) in d && Depth(d, u, k)
    requires forall w :: w in Predecessors(d, v) ==> DepthAtMost(d, w, k)
    ensures Depth(d, v, k + 1)
  {
    var p :| EndsAt(d, p, u) && |p| == k + 1;
    Extend(d, p, v);
    assert EndsAt(d, p + [v], v);
    forall q | EndsAt(d, q, v)
      ensures |q| <= k + 2
    {
      if |q| > 1 {
        var w := q[|q| - 2];
        assert Step(d, q, |q| - 2);
        PredecessorIff(d, w, v);
        Slice(d, q, 0, |q| - 1);
        assert EndsAt(d, q[0..|q| - 1], w);
      }
    }
  }

  lemma DepthMonotone(d: set<Arc>, v: string, j: nat, k: nat)
    requires Depth(d, v, j) && j <= k
    ensures DepthAtMost(d, v, k)
  {
  }

  /** Paths that pass a cycle can be made as long as one likes. */
  lemma {:induction false} CycleUnbounded(d: set<Arc>, v: string, n: nat) returns (p: seq<string>)
    requires CycleBound(d, v)
    ensures EndsAt(d, p, v) && |p| > n
  {
    var c :| OnCycle(d, c) && Reaches(d, c, v);
    var tail :| PathBetween(d, tail, c, v);
    var loop := CyclePath(d, c, n);
    Join(d, loop, tail);
    p := loop + tail[1..];
  }

  lemma {:induction false} CyclePath(d: set<Arc>, c: string, n: nat) returns (p: seq<string>)
    requires OnCycle(d, c)
    ensures PathBetween(d, p, c, c) && |p| > n
  {
    var once :| PathBetween(d, once, c, c) && |once| >= 2;
    if n <= 1 {
      p := once;
    } else {
      var rest := CyclePath(d, c, n - 1);
      Join(d, once, rest);
      p := once + rest[1..];
    }
  }

  lemma CycleBoundHasNoDepth(d: set<Arc>, v: string, k: nat)
    requires CycleBound(d, v)
    ensures !Depth(d, v, k)
  {
    var p := CycleUnbounded(d, v, k + 1);
  }

  // ----- one layering only

  lemma LayeredPlace(d: set<Arc>, names: set<string>, batches: seq<seq<string>>, v: string, k: nat)
    requires Layered(d, names, batches) && v in names && Depth(d, v, k)
    ensures k < |batches| && v in batches[k]
  {
    assert Placed(batches, v);
    var i :| 0 <= i < |batches| && v in batches[i];
    DepthUnique(d, v, i, k);
  }

  lemma LayeredIncluded(d: set<Arc>, names: set<string>, a: seq<seq<string>>, b: seq<seq<string>>, i: nat)
    requires Layered(d, names, a) && Layered(d, names, b) && i < |a|
    ensures i < |b|
    ensures Elements(a[i]) <= Elements(b[i])
  {
    var w := a[i][0];
    LayeredPlace(d, names, b, w, i);
    forall v | v in Elements(a[i])
      ensures v in Elements(b[i])
    {
      LayeredPlace(d, names, b, v, i);
    }
  }

  /** The batches are determined by the nodes and the arcs. */
  lemma LayeredUnique(d: set<Arc>, names: set<string>, a: seq<seq<string>>, b: seq<seq<string>>)
    requires Layered(d, names, a) && Layered(d, names, b)
    ensures a == b
  {
    if |a| > |b| {
      LayeredIncluded(d, names, a, b, |a| - 1);
    } else if |b| > |a| {
      LayeredIncluded(d, names, b, a, |b| - 1);
    }
    forall i | 0 <= i < |a|
      ensures a[i] == b[i]
    {
      LayeredIncluded(d, names, a, b, i);
      LayeredIncluded(d, names, b, a, i);
      AscendingUnique(a[i], b[i]);
    }
  }

  /** A dependency is always in an earlier batch than its dependent. */
  lemma DependenciesComeFirst(d: set<Arc>, names: set<string>, batches: seq<seq<string>>, i: nat, j: nat, u: string, v: string)
    requires Layered(d, names, batches) && i < |batches| && j < |batches|
    requires u in batches[i] && v in batches[j] && (u, v) in d
    ensures i < j
  {
    assert Depth(d, u, i) && Depth(d, v, j);
    var p :| EndsAt(d, p, u) && |p| == i + 1;
    Extend(d, p, v);
    assert EndsAt(d, p + [v], v);
  }

  // ----- the algorithm

  function ArcSet(arcs: seq<Arc>): set<Arc> {
    set a | a in arcs
  }

  /** How many dependencies of `v` are still to be visited. */
  ghost function Pending(d: set<Arc>, visited: set<string>, v: string): nat {
    |Predecessors(d, v) - visited|
  }

  ghost predicate Counted(d: set<Arc>, names: set<string>, degrees: map<string, nat>, visited: set<string>) {
    degrees.Keys == names && forall v :: v in names ==> degrees[v] == Pending(d, visited, v)
  }

  /** The counters while `name` is being visited and the first `k` arcs have been looked at. */
  ghost predicate Counting(arcs: seq<Arc>, names: set<string>, degrees: map<string, nat>, visited: set<string>,
                           name: string, k: nat)
    requires k <= |arcs|
  {
    && degrees.Keys == names
    && forall v :: v in names ==>
         degrees[v] == Pending(ArcSet(arcs), visited, v) + (if (name, v) in arcs[k..] then 1 else 0)
  }

  lemma CountingStarts(arcs: seq<Arc>, names: set<string>, degrees: map<string, nat>, visited: set<string>, name: string)
    requires Counted(ArcSet(arcs), names, degrees, visited) && name !in visited
    ensures Counting(arcs, names, degrees, visited + {name}, name, 0)
  {
    var d := ArcSet(arcs);
    assert arcs[0..] == arcs;
    forall v | v in names
      ensures degrees[v] == Pending(d, visited + {name}, v) + (if (name, v) in arcs[0..] then 1 else 0)
    {
      PredecessorIff(d, name, v);
      var before, after := Predecessors(d, v) - visited, Predecessors(d, v) - (visited + {name});
      if (name, v) in d {
        assert before == after + {name} && name !in after;
      } else {
        assert before == after;
      }
    }
  }

  lemma CountingEnds(arcs: seq<Arc>, names: set<string>, degrees: map<string, nat>, visited: set<string>, name: string)
    requires Counting(arcs, names, degrees, visited, name, |arcs|)
    ensures Counted(ArcSet(arcs), names, degrees, visited)
  {
  }

  lemma CountingSkips(arcs: seq<Arc>, names: set<string>, degrees: map<string, nat>, visited: set<string>,
                      name: string, k: nat)
    requires k < |arcs| && arcs[k].0 != name
    requires Counting(arcs, names, degrees, visited, name, k)
    ensures Counting(arcs, names, degrees, visited, name, k + 1)
  {
    assert arcs[k..] == [arcs[k]] + arcs[k + 1..];
  }

  /** The counter of a dependent is at least one when it is decremented. */
  lemma CountingDecrements(arcs: seq<Arc>, names: set<string>, degrees: map<string, nat>, visited: set<string>,
                           name: string, k: nat)
    requires k < |arcs| && arcs[k].0 == name && arcs[k].1 in names && Distinct(arcs)
    requires Counting(arcs, names, degrees, visited, name, k)
    ensures degrees[arcs[k].1] >= 1
    ensures Counting(arcs, names, degrees[arcs[k].1 := degrees[arcs[k].1] - 1], visited, name, k + 1)
  {
    var v, d := arcs[k].1, ArcSet(arcs);
    LaterArcs(arcs, k);
    var degrees' := degrees[v := degrees[v] - 1];
    assert degrees'.Keys == names;
    forall w | w in names
      ensures degrees'[w] == Pending(d, visited, w) + (if (name, w) in arcs[k + 1..] then 1 else 0)
    {
      assert (name, w) in arcs[k..] <==> w == v || (name, w) in arcs[k + 1..];
    }
  }

  lemma LaterArcs(arcs: seq<Arc>, k: nat)
    requires k < |arcs| && Distinct(arcs)
    ensures arcs[k..] == [arcs[k]] + arcs[k + 1..]
    ensures arcs[k] !in arcs[k + 1..]
  {
  }

  method CountDegrees(names: set<string>, arcs: seq<Arc>) returns (degrees: map<string, nat>)
    requires Distinct(arcs) && Ends(ArcSet(arcs)) <= names
    ensures Counted(ArcSet(arcs), names, degrees, {})
  {
    degrees := map v | v in names :: 0;
    NoArcs(names, degrees, arcs);
    for k := 0 to |arcs|
      invariant Counted(ArcSet(arcs[..k]), names, degrees, {})
    {
      CountOneMore(arcs, names, degrees, k);
      degrees := degrees[arcs[k].1 := degrees[arcs[k].1] + 1];
    }
    assert arcs[..|arcs|] == arcs;
  }

  lemma NoArcs(names: set<string>, degrees: map<string, nat>, arcs: seq<Arc>)
    requires degrees.Keys == names && forall v :: v in names ==> degrees[v] == 0
    ensures Counted(ArcSet(arcs[..0]), names, degrees, {})
  {
    forall v | v in names
      ensures Pending(ArcSet(arcs[..0]), {}, v) == 0
    {
      assert Predecessors(ArcSet(arcs[..0]), v) - {} == {};
    }
  }

  lemma CountOneMore(arcs: seq<Arc>, names: set<string>, degrees: map<string, nat>, k: nat)
    requires k < |arcs| && Distinct(arcs) && Ends(ArcSet(arcs)) <= names
    requires Counted(ArcSet(arcs[..k]), names, degrees, {})
    ensures arcs[k].1 in names
    ensures Counted(ArcSet(arcs[..k + 1]), names, degrees[arcs[k].1 := degrees[arcs[k].1] + 1], {})
  {
    ArcEnds(ArcSet(arcs), arcs[k].0, arcs[k].1);
    PrefixArcs(arcs, k);
    CountGrows(ArcSet(arcs[..k]), arcs[k], names, degrees);
  }

  lemma CountGrows(d: set<Arc>, a: Arc, names: set<string>, degrees: map<string, nat>)
    requires a !in d && a.1 in names
    requires Counted(d, names, degrees, {})
    ensures Counted(d + {a}, names, degrees[a.1 := degrees[a.1] + 1], {})
  {
    var degrees' := degrees[a.1 := degrees[a.1] + 1];
    assert degrees'.Keys == names;
    forall v | v in names
      ensures degrees'[v] == Pending(d + {a}, {}, v)
    {
      PredecessorsGrow(d, a, v);
      assert degrees[v] == Pending(d, {}, v);
    }
  }

  lemma PrefixArcs(arcs: seq<Arc>, k: nat)
    requires k < |arcs| && Distinct(arcs)
    ensures ArcSet(arcs[..k + 1]) == ArcSet(arcs[..k]) + {arcs[k]}
    ensures arcs[k] !in ArcSet(arcs[..k])
    ensures arcs[k] in ArcSet(arcs)
  {
    assert arcs[..k + 1] == arcs[..k] + [arcs[k]];
  }

  lemma PredecessorsGrow(d: set<Arc>, a: Arc, v: string)
    requires a !in d
    ensures Pending(d + {a}, {}, v) == Pending(d, {}, v) + (if v == a.1 then 1 else 0)
  {
    if v == a.1 {
      PredecessorIff(d, a.0, v);
      assert Predecessors(d + {a}, v) - {} == (Predecessors(d, v) - {}) + {a.0};
    } else {
      assert Predecessors(d + {a}, v) == Predecessors(d, v);
    }
  }

  // ----- the layers

  /** What holds between two batches: `ready` is exactly what the visited nodes make ready. */
  ghost predicate Frontier(d: set<Arc>, names: set<string>, visited: set<string>, ready: set<string>) {
    && visited <= names
    && (forall v :: v in ready <==> v in names - visited && Predecessors(d, v) <= visited)
    && (forall v :: v in visited ==> Predecessors(d, v) <= visited)
  }

  ghost predicate Settled(d: set<Arc>, visited: set<string>, batches: seq<seq<string>>) {
    && (forall i :: 0 <= i < |batches| ==> batches[i] != [] && Ascending(batches[i]))
    && (forall i, v :: 0 <= i < |batches| && v in batches[i] ==> v in visited && Depth(d, v, i))
    && (forall v :: v in visited ==> Placed(batches, v))
  }

  function Zeros(degrees: map<string, nat>): set<string> {
    set v | v in degrees && degrees[v] == 0
  }

  /** The next nodes so far are those whose counters have reached zero since the batch began. */
  ghost predicate Reached(degrees: map<string, nat>, old0: set<string>, next: set<string>) {
    Zeros(degrees) == old0 + next && old0 !! next
  }

  lemma ReachedAfterDecrement(degrees: map<string, nat>, old0: set<string>, next: set<string>, v: string)
    requires Reached(degrees, old0, next) && v in degrees && degrees[v] >= 1
    ensures Reached(degrees[v := degrees[v] - 1], old0, if degrees[v] == 1 then next + {v} else next)
  {
    assert v !in Zeros(degrees);
    var degrees' := degrees[v := degrees[v] - 1];
    if degrees[v] == 1 {
      assert Zeros(degrees') == Zeros(degrees) + {v};
    } else {
      assert Zeros(degrees') == Zeros(degrees);
    }
  }

  /** One node: every dependent's counter goes down, and those that reach zero are next. */
  method Relax(names: set<string>, arcs: seq<Arc>, name: string, degrees0: map<string, nat>, next0: set<string>,
               ghost visited: set<string>, ghost old0: set<string>)
    returns (degrees: map<string, nat>, next: set<string>)
    requires Distinct(arcs) && Ends(ArcSet(arcs)) <= names
    requires Counted(ArcSet(arcs), names, degrees0, visited) && name !in visited
    requires Reached(degrees0, old0, next0)
    ensures Counted(ArcSet(arcs), names, degrees, visited + {name})
    ensures Reached(degrees, old0, next)
  {
    degrees, next := degrees0, next0;
    CountingStarts(arcs, names, degrees, visited, name);
    for k := 0 to |arcs|
      invariant Counting(arcs, names, degrees, visited + {name}, name, k)
      invariant Reached(degrees, old0, next)
    {
      var dependent := arcs[k].1;
      if arcs[k].0 == name {
        ArcEnds(ArcSet(arcs), name, dependent);
        CountingDecrements(arcs, names, degrees, visited + {name}, name, k);
        ReachedAfterDecrement(degrees, old0, next, dependent);
        degrees := degrees[dependent := degrees[dependent] - 1];
        if degrees[dependent] == 0 {
          next := next + {dependent};
        }
      } else {
        CountingSkips(arcs, names, degrees, visited + {name}, name, k);
      }
    }
    CountingEnds(arcs, names, degrees, visited + {name}, name);
  }

  /** One batch: all its nodes are visited, and `next` is what that makes ready. */
  method VisitBatch(names: set<string>, arcs: seq<Arc>, ready: seq<string>, degrees0: map<string, nat>, ghost visited0: set<string>)
    returns (degrees: map<string, nat>, next: set<string>)
    requires Distinct(arcs) && Ends(ArcSet(arcs)) <= names && Ascending(ready)
    requires Counted(ArcSet(arcs), names, degrees0, visited0)
    requires Frontier(ArcSet(arcs), names, visited0, Elements(ready))
    ensures Counted(ArcSet(arcs), names, degrees, visited0 + Elements(ready))
    ensures Frontier(ArcSet(arcs), names, visited0 + Elements(ready), next)
  {
    ghost var d, old0 := ArcSet(arcs), visited0 + Elements(ready);
    degrees, next := degrees0, {};
    ZerosAtStart(d, names, degrees, visited0, Elements(ready));
    ghost var visited := visited0;
    for r := 0 to |ready|
      invariant visited == visited0 + Elements(ready[..r])
      invariant Counted(d, names, degrees, visited)
      invariant Reached(degrees, old0, next)
    {
      NextIsNew(d, names, ready, visited0, r);
      degrees, next := Relax(names, arcs, ready[r], degrees, next, visited, old0);
      visited := visited + {ready[r]};
    }
    assert ready[..|ready|] == ready;
    NextFrontier(d, names, degrees, visited0, Elements(ready), next);
  }

  lemma FrontierIs(d: set<Arc>, names: set<string>, visited: set<string>, ready: set<string>, v: string)
    requires Frontier(d, names, visited, ready) && v in names
    ensures Predecessors(d, v) <= visited <==> v in visited + ready
  {}

  lemma ZeroMember(d: set<Arc>, names: set<string>, degrees: map<string, nat>, visited: set<string>, ready: set<string>, v: string)
    requires Counted(d, names, degrees, visited) && Frontier(d, names, visited, ready)
    ensures v in Zeros(degrees) <==> v in visited + ready
  {
    if v in names {
      ZeroIff(d, names, degrees, visited, v);
      FrontierIs(d, names, visited, ready, v);
    }
  }

  lemma ZerosAtStart(d: set<Arc>, names: set<string>, degrees: map<string, nat>, visited: set<string>, ready: set<string>)
    requires Counted(d, names, degrees, visited) && Frontier(d, names, visited, ready)
    ensures Reached(degrees, visited + ready, {})
  {
    forall v
      ensures v in Zeros(degrees) <==> v in visited + ready
    {
      ZeroMember(d, names, degrees, visited, ready, v);
    }
  }

  lemma ZeroIff(d: set<Arc>, names: set<string>, degrees: map<string, nat>, visited: set<string>, v: string)
    requires Counted(d, names, degrees, visited) && v in names
    ensures degrees[v] == 0 <==> Predecessors(d, v) <= visited
  {
    if Predecessors(d, v) <= visited {
      assert Predecessors(d, v) - visited == {};
    } else {
      var u :| u in Predecessors(d, v) && u !in visited;
      assert u in Predecessors(d, v) - visited;
    }
  }

  lemma NextIsNew(d: set<Arc>, names: set<string>, ready: seq<string>, visited: set<string>, r: nat)
    requires Frontier(d, names, visited, Elements(ready)) && Ascending(ready) && r < |ready|
    ensures ready[r] !in visited + Elements(ready[..r])
    ensures visited + Elements(ready[..r]) + {ready[r]} == visited + Elements(ready[..r + 1])
  {
    assert ready[r] in Elements(ready);
    assert ready[..r + 1] == ready[..r] + [ready[r]];
    LessIrreflexive(ready[r]);
  }

  lemma NextFrontier(d: set<Arc>, names: set<string>, degrees: map<string, nat>, visited: set<string>,
                     ready: set<string>, next: set<string>)
    requires Counted(d, names, degrees, visited + ready)
    requires Frontier(d, names, visited, ready)
    requires Reached(degrees, visited + ready, next)
    ensures Frontier(d, names, visited + ready, next)
  {
    forall v
      ensures v in next <==> v in names - (visited + ready) && Predecessors(d, v) <= visited + ready
    {
      if v in names {
        ZeroIff(d, names, degrees, visited + ready, v);
        assert v in Zeros(degrees) <==> degrees[v] == 0;
      } else {
        assert v !in Zeros(degrees);
      }
    }
  }

  ghost predicate AllAtDepth(d: set<Arc>, s: set<string>, k: nat) {
    forall v :: v in s ==> Depth(d, v, k)
  }

  lemma SettleBatch(d: set<Arc>, visited: set<string>, batches: seq<seq<string>>, ready: seq<string>)
    requires Settled(d, visited, batches)
    requires ready != [] && Ascending(ready) && AllAtDepth(d, Elements(ready), |batches|)
    ensures Settled(d, visited + Elements(ready), batches + [ready])
  {
    var visited', batches' := visited + Elements(ready), batches + [ready];
    forall v | v in visited'
      ensures Placed(batches', v)
    {
      if v in visited {
        assert Placed(batches, v);
        var i :| 0 <= i < |batches| && v in batches[i];
        assert batches'[i] == batches[i];
      } else {
        assert v in batches'[|batches|];
      }
    }
    forall i, v | 0 <= i < |batches'| && v in batches'[i]
      ensures v in visited' && Depth(d, v, i)
    {
      if i < |batches| {
        assert v in batches[i];
      } else {
        assert v in Elements(ready);
      }
    }
  }

  lemma SettledDepth(d: set<Arc>, visited: set<string>, batches: seq<seq<string>>, v: string, k: nat)
    requires Settled(d, visited, batches) && v in visited && |batches| <= k + 1
    ensures DepthAtMost(d, v, k)
  {
    assert Placed(batches, v);
    var i :| 0 <= i < |batches| && v in batches[i];
    DepthMonotone(d, v, i, k);
  }

  /** What becomes ready next lies exactly one level deeper. */
  lemma NextDepth(d: set<Arc>, names: set<string>, visited: set<string>, batches: seq<seq<string>>,
                  ready: set<string>, next: set<string>)
    requires Settled(d, visited, batches) && AllAtDepth(d, ready, |batches|)
    requires Frontier(d, names, visited, ready) && Frontier(d, names, visited + ready, next)
    ensures AllAtDepth(d, next, |batches| + 1)
  {
    forall v | v in next
      ensures Depth(d, v, |batches| + 1)
    {
      assert v in names - visited && v !in ready;
      var u :| u in Predecessors(d, v) && u !in visited;
      assert u in ready;
      PredecessorIff(d, u, v);
      forall w | w in Predecessors(d, v)
        ensures DepthAtMost(d, w, |batches|)
      {
        if w in visited {
          SettledDepth(d, visited, batches, w, |batches|);
        } else {
          assert w in ready;
        }
      }
      DepthAfterPredecessors(d, v, u, |batches|);
    }
  }

  lemma BatchDone(d: set<Arc>, names: set<string>, visited: set<string>, batches: seq<seq<string>>,
                  ready: seq<string>, next: set<string>)
    requires ready != [] && Ascending(ready)
    requires Settled(d, visited, batches) && AllAtDepth(d, Elements(ready), |batches|)
    requires Frontier(d, names, visited, Elements(ready)) && Frontier(d, names, visited + Elements(ready), next)
    ensures Settled(d, visited + Elements(ready), batches + [ready])
    ensures AllAtDepth(d, next, |batches + [ready]|)
    ensures names - (visited + Elements(ready)) < names - visited
  {
    NextDepth(d, names, visited, batches, Elements(ready), next);
    SettleBatch(d, visited, batches, ready);
    assert ready[0] in Elements(ready);
  }

  /** Nothing ready: what is left is exactly what a cycle blocks. */
  lemma StuckIffCycleBound(d: set<Arc>, names: set<string>, visited: set<string>, batches: seq<seq<string>>, v: string)
    requires Ends(d) <= names && v in names
    requires Frontier(d, names, visited, {}) && Settled(d, visited, batches)
    ensures v !in visited <==> CycleBound(d, v)
  {
    if v in visited {
      assert Placed(batches, v);
      var i :| 0 <= i < |batches| && v in batches[i];
      if CycleBound(d, v) {
        CycleBoundHasNoDepth(d, v, i);
      }
    } else {
      forall x | x in names - visited
        ensures Blocked(d, names - visited, x)
      {
        assert x !in {};
        var u :| u in Predecessors(d, x) && u !in visited;
        PredecessorIff(d, u, x);
        ArcEnds(d, u, x);
      }
      BlockedByCycle(d, names - visited, v);
    }
  }

  lemma SettledIsLayered(d: set<Arc>, names: set<string>, batches: seq<seq<string>>)
    requires Settled(d, names, batches)
    ensures Layered(d, names, batches)
  {
  }

  function Roots(d: set<Arc>, names: set<string>): set<string> {
    set v | v in names && Predecessors(d, v) == {}
  }

  function Terminals(d: set<Arc>, names: set<string>): set<string> {
    set v | v in names && forall a :: a in d ==> a.0 != v
  }

  /** The layered sort with in-degree counters. What it cannot visit is what a cycle blocks. */
  method Layers(names: set<string>, arcs: seq<Arc>)
    returns (batches: seq<seq<string>>, visited: set<string>, roots: seq<string>)
    requires Distinct(arcs) && Ends(ArcSet(arcs)) <= names
    ensures roots == Sorted(Roots(ArcSet(arcs), names))
    ensures visited <= names && Settled(ArcSet(arcs), visited, batches)
    ensures forall v :: v in names ==> (v !in visited <==> CycleBound(ArcSet(arcs), v))
  {
    ghost var d := ArcSet(arcs);
    var degrees := CountDegrees(names, arcs);
    roots := Sorted(Zeros(degrees));
    FirstFrontier(d, names, degrees);
    var ready := roots;
    batches, visited := [], {};
    while ready != []
      invariant Counted(d, names, degrees, visited) && Ascending(ready)
      invariant Frontier(d, names, visited, Elements(ready))
      invariant Settled(d, visited, batches) && AllAtDepth(d, Elements(ready), |batches|)
      decreases names - visited
    {
      var next;
      degrees, next := VisitBatch(names, arcs, ready, degrees, visited);
      BatchDone(d, names, visited, batches, ready, next);
      batches := batches + [ready];
      visited := visited + Elements(ready);
      ready := Sorted(next);
    }
    AllStuckIff(d, names, visited, batches, Elements(ready));
  }

  lemma AllStuckIff(d: set<Arc>, names: set<string>, visited: set<string>, batches: seq<seq<string>>, ready: set<string>)
    requires Ends(d) <= names && ready == {}
    requires Frontier(d, names, visited, ready) && Settled(d, visited, batches)
    ensures forall v :: v in names ==> (v !in visited <==> CycleBound(d, v))
  {
    forall v | v in names
      ensures v !in visited <==> CycleBound(d, v)
    {
      StuckIffCycleBound(d, names, visited, batches, v);
    }
  }

  lemma FirstFrontier(d: set<Arc>, names: set<string>, degrees: map<string, nat>)
    requires Counted(d, names, degrees, {})
    ensures Zeros(degrees) == Roots(d, names)
    ensures Frontier(d, names, {}, Zeros(degrees))
    ensures AllAtDepth(d, Zeros(degrees), 0)
  {
    forall v
      ensures v in Zeros(degrees) <==> v in names && Predecessors(d, v) == {}
    {
      if v in names {
        ZeroIff(d, names, degrees, {}, v);
      }
    }
    forall v | v in Zeros(degrees)
      ensures Depth(d, v, 0)
    {
      DepthOfRoot(d, v);
    }
  }

  /** A graph with no cycle is layered completely, and only such a graph is. */
  lemma AcyclicIffNothingBound(d: set<Arc>, names: set<string>)
    requires Ends(d) <= names
    ensures Acyclic(d) <==> forall v :: v in names ==> !CycleBound(d, v)
  {
    if !Acyclic(d) {
      var v :| Follows(d, v, v);
      FollowsLastArc(d, v, v);
      var u :| Reaches(d, v, u) && (u, v) in d;
      ArcEnds(d, u, v);
      ReachesSelf(d, v);
      assert CycleBound(d, v);
    }
  }
}
