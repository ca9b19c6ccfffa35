/** Paths and reachability in a finite directed graph, given as its set of arcs. */
module Paths {

  type Arc = (string, string)

  ghost predicate Step(d: set<Arc>, p: seq<string>, i: int)
    requires 0 <= i < |p| - 1
  {
    (p[i], p[i + 1]) in d
  }

  /** A path lists its nodes, so one with `k + 1` nodes has `k` arcs; one node alone is a path. */
  ghost predicate Path(d: set<Arc>, p: seq<string>) {
    p != [] && forall i {:trigger Step(d, p, i)} :: 0 <= i < |p| - 1 ==> Step(d, p, i)
  }

  ghost predicate PathBetween(d: set<Arc>, p: seq<string>, u: string, v: string) {
    Path(d, p) && p[0] == u && p[|p| - 1] == v
  }

  /** `v` is `u` or comes after it. */
  ghost predicate Reaches(d: set<Arc>, u: string, v: string) {
    exists p :: PathBetween(d, p, u, v)
  }

  /** `v` comes after `u`: there is a path of at least one arc. */
  ghost predicate Follows(d: set<Arc>, u: string, v: string) {
    exists p :: PathBetween(d, p, u, v) && |p| >= 2
  }

  ghost predicate Acyclic(d: set<Arc>) {
    forall v :: !Follows(d, v, v)
  }

  ghost predicate OnCycle(d: set<Arc>, v: string) {
    Follows(d, v, v)
  }

  /** Every node an arc leaves or enters. */
  function Ends(d: set<Arc>): set<string> {
    (set a | a in d :: a.0) + (set a | a in d :: a.1)
  }

  function Predecessors(d: set<Arc>, v: string): set<string> {
    set a | a in d && a.1 == v :: a.0
  }

  lemma PredecessorIff(d: set<Arc>, u: string, v: string)
    ensures u in Predecessors(d, v) <==> (u, v) in d
  {
    if (u, v) in d {
      var a := (u, v);
      assert a in d && a.1 == v && a.0 == u;
    }
  }

  lemma ArcEnds(d: set<Arc>, u: string, v: string)
    requires (u, v) in d
    ensures u in Ends(d) && v in Ends(d)
  {
    var a := (u, v);
    assert a in d && a.0 == u && a.1 == v;
  }

  // ----- building paths

  lemma Slice(d: set<Arc>, p: seq<string>, i: nat, j: nat)
    requires Path(d, p) && i < j <= |p|
    ensures PathBetween(d, p[i..j], p[i], p[j - 1])
  {
    var q := p[i..j];
    forall k {:trigger Step(d, q, k)} | 0 <= k < |q| - 1
      ensures Step(d, q, k)
    {
      assert Step(d, p, i + k);
      assert q[k] == p[i + k] && q[k + 1] == p[i + k + 1];
    }
  }

  lemma Join(d: set<Arc>, p: seq<string>, q: seq<string>)
    requires Path(d, p) && Path(d, q) && p[|p| - 1] == q[0]
    ensures PathBetween(d, p + q[1..], p[0], q[|q| - 1])
    ensures |p + q[1..]| == |p| + |q| - 1
  {
    var r := p + q[1..];
    forall k {:trigger Step(d, r, k)} | 0 <= k < |r| - 1
      ensures Step(d, r, k)
    {
      if k < |p| - 1 {
        assert Step(d, p, k);
        assert r[k] == p[k] && r[k + 1] == p[k + 1];
      } else {
        assert Step(d, q, k - (|p| - 1));
        assert r[k] == q[k - (|p| - 1)] && r[k + 1] == q[k - (|p| - 1) + 1];
      }
    }
  }

  lemma Extend(d: set<Arc>, p: seq<string>, v: string)
    requires Path(d, p) && (p[|p| - 1], v) in d
    ensures PathBetween(d, p + [v], p[0], v)
  {
    var q := [p[|p| - 1], v];
    assert Path(d, q);
    Join(d, p, q);
    assert p + q[1..] == p + [v];
  }

  lemma Prepend(d: set<Arc>, v: string, p: seq<string>)
    requires Path(d, p) && (v, p[0]) in d
    ensures PathBetween(d, [v] + p, v, p[|p| - 1])
  {
    var q := [v, p[0]];
    assert Path(d, q);
    Join(d, q, p);
    assert q + p[1..] == [v] + p;
  }

  lemma Monotone(d: set<Arc>, e: set<Arc>, p: seq<string>)
    requires d <= e && Path(d, p)
    ensures Path(e, p)
  {
    forall i {:trigger Step(e, p, i)} | 0 <= i < |p| - 1
      ensures Step(e, p, i)
    {
      assert Step(d, p, i);
    }
  }

  // ----- reachability

  lemma ReachesSelf(d: set<Arc>, v: string)
    ensures Reaches(d, v, v)
  {
    assert PathBetween(d, [v], v, v);
  }

  lemma ReachesSplit(d: set<Arc>, u: string, v: string)
    ensures Reaches(d, u, v) <==> u == v || Follows(d, u, v)
  {
    if Reaches(d, u, v) && u != v {
      var p :| PathBetween(d, p, u, v);
      assert |p| >= 2;
    }
    ReachesSelf(d, u);
  }

  lemma ArcFollows(d: set<Arc>, u: string, v: string)
    requires (u, v) in d
    ensures Follows(d, u, v) && Reaches(d, u, v)
  {
    assert PathBetween(d, [u, v], u, v);
  }

  lemma ReachesTransitive(d: set<Arc>, u: string, v: string, w: string)
    requires Reaches(d, u, v) && Reaches(d, v, w)
    ensures Reaches(d, u, w)
  {
    var p :| PathBetween(d, p, u, v);
    var q :| PathBetween(d, q, v, w);
    Join(d, p, q);
    assert PathBetween(d, p + q[1..], u, w);
  }

  lemma FollowsTransitive(d: set<Arc>, u: string, v: string, w: string)
    requires Reaches(d, u, v) && Reaches(d, v, w)
    requires Follows(d, u, v) || Follows(d, v, w)
    ensures Follows(d, u, w)
  {
    var p :| PathBetween(d, p, u, v) && (Follows(d, u, v) ==> |p| >= 2);
    var q :| PathBetween(d, q, v, w) && (Follows(d, v, w) ==> |q| >= 2);
    Join(d, p, q);
    assert PathBetween(d, p + q[1..], u, w);
  }

  /** The last arc of a nonempty path. */
  lemma FollowsLastArc(d: set<Arc>, u: string, w: string)
    requires Follows(d, u, w)
    ensures exists v :: Reaches(d, u, v) && (v, w) in d
  {
    var p :| PathBetween(d, p, u, w) && |p| >= 2;
    var v := p[|p| - 2];
    Slice(d, p, 0, |p| - 1);
    assert PathBetween(d, p[0..|p| - 1], u, v);
    assert Step(d, p, |p| - 2);
  }

  /** A set that arcs do not leave keeps every path that starts in it. */
  lemma {:induction false} ClosedKeepsPath(d: set<Arc>, s: set<string>, p: seq<string>)
    requires Path(d, p) && p[0] in s
    requires forall a :: a in d && a.0 in s ==> a.1 in s
    ensures forall x :: x in p ==> x in s
  {
    if |p| > 1 {
      assert Step(d, p, 0);
      Slice(d, p, 1, |p|);
      assert p[1..|p|] == p[1..];
      ClosedKeepsPath(d, s, p[1..]);
      assert p == [p[0]] + p[1..];
    }
  }

  // ----- finiteness

  /** A name and all that can be reached from it. */
  ghost function Reachable(d: set<Arc>, start: string): set<string> {
    set v | v in {start} + Ends(d) && Reaches(d, start, v)
  }

  lemma ReachableIff(d: set<Arc>, start: string, v: string)
    ensures v in Reachable(d, start) <==> Reaches(d, start, v)
  {
    if Reaches(d, start, v) && v != start {
      ReachesSplit(d, start, v);
      FollowsLastArc(d, start, v);
      var u :| Reaches(d, start, u) && (u, v) in d;
      ArcEnds(d, u, v);
    }
  }

  ghost predicate AllReached(d: set<Arc>, start: string, found: set<string>) {
    forall v :: v in found ==> Reaches(d, start, v)
  }

  lemma AllReachedWithin(d: set<Arc>, start: string, found: set<string>)
    requires AllReached(d, start, found)
    ensures found <= Reachable(d, start)
  {
    forall v | v in found
      ensures v in Reachable(d, start)
    {
      ReachableIff(d, start, v);
    }
  }

  /** Along an arc, what is reached leads to what is reached. */
  lemma ReachedNext(d: set<Arc>, start: string, found: set<string>, u: string, v: string)
    requires AllReached(d, start, found) && u in found && (u, v) in d
    ensures Reaches(d, start, v) && v in Ends(d)
  {
    ArcEnds(d, u, v);
    ArcFollows(d, u, v);
    ReachesTransitive(d, start, u, v);
  }

  /** A set that is closed under the arcs and holds the start holds all that can be reached. */
  lemma ClosedHoldsReachable(d: set<Arc>, start: string, s: set<string>)
    requires start in s && forall a :: a in d && a.0 in s ==> a.1 in s
    ensures Reachable(d, start) <= s
  {
    forall v | v in Reachable(d, start)
      ensures v in s
    {
      var p :| PathBetween(d, p, start, v);
      ClosedKeepsPath(d, s, p);
      assert p[|p| - 1] in p;
    }
  }

  /** A listing longer than the set it draws from repeats an element. */
  lemma {:induction false} Pigeonhole(p: seq<string>, s: set<string>)
    requires forall x :: x in p ==> x in s
    requires |p| > |s|
    ensures exists i, j :: 0 <= i < j < |p| && p[i] == p[j]
  {
    var x := p[0];
    if x in p[1..] {
      var k :| 0 <= k < |p[1..]| && p[1..][k] == x;
      assert p[0] == p[k + 1];
    } else {
      assert forall y :: y in p[1..] ==> y in p;
      Pigeonhole(p[1..], s - {x});
      var i, j :| 0 <= i < j < |p[1..]| && p[1..][i] == p[1..][j];
      assert p[i + 1] == p[j + 1];
    }
  }

  ghost predicate Simple(p: seq<string>) {
    forall i, j :: 0 <= i < j < |p| ==> p[i] != p[j]
  }

  lemma AcyclicPathSimple(d: set<Arc>, p: seq<string>)
    requires Acyclic(d) && Path(d, p)
    ensures Simple(p)
  {
    forall i, j | 0 <= i < j < |p|
      ensures p[i] != p[j]
    {
      Slice(d, p, i, j + 1);
      if p[i] == p[j] {
        assert PathBetween(d, p[i..j + 1], p[i], p[i]);
        assert Follows(d, p[i], p[i]);
      }
    }
  }

  lemma {:induction false} PathWithin(d: set<Arc>, p: seq<string>)
    requires Path(d, p) && |p| >= 2
    ensures forall x :: x in p ==> x in Ends(d)
  {
    forall x | x in p
      ensures x in Ends(d)
    {
      var i :| 0 <= i < |p| && p[i] == x;
      if i < |p| - 1 {
        assert Step(d, p, i);
        ArcEnds(d, p[i], p[i + 1]);
      } else {
        assert Step(d, p, i - 1);
        ArcEnds(d, p[i - 1], p[i]);
      }
    }
  }

  lemma RepeatIsCycle(d: set<Arc>, p: seq<string>, i: nat, j: nat)
    requires Path(d, p) && i < j < |p| && p[i] == p[j]
    ensures OnCycle(d, p[i]) && Reaches(d, p[i], p[|p| - 1])
  {
    var loop, tail := p[i..j + 1], p[i..|p|];
    Slice(d, p, i, j + 1);
    assert PathBetween(d, loop, p[i], p[i]) && |loop| >= 2;
    Slice(d, p, i, |p|);
    assert PathBetween(d, tail, p[i], p[|p| - 1]);
  }

  ghost predicate Blocked(d: set<Arc>, s: set<string>, v: string) {
    exists u :: u in s && (u, v) in d
  }

  /** If every node of a finite set has a predecessor in the set, each of them comes after a cycle. */
  lemma BlockedByCycle(d: set<Arc>, s: set<string>, v: string)
    requires v in s
    requires forall x {:trigger Blocked(d, s, x)} :: x in s ==> Blocked(d, s, x)
    ensures exists c :: OnCycle(d, c) && Reaches(d, c, v)
  {
    var p := WalkBack(d, s, v, |s|);
    Pigeonhole(p, s);
    var i, j :| 0 <= i < j < |p| && p[i] == p[j];
    RepeatIsCycle(d, p, i, j);
  }

  lemma {:induction false} WalkBack(d: set<Arc>, s: set<string>, v: string, n: nat) returns (p: seq<string>)
    requires v in s
    requires forall x {:trigger Blocked(d, s, x)} :: x in s ==> Blocked(d, s, x)
    ensures |p| == n + 1
    ensures Path(d, p) && p[|p| - 1] == v
    ensures forall x :: x in p ==> x in s
  {
    if n == 0 {
      p := [v];
    } else {
      var q := WalkBack(d, s, v, n - 1);
      assert q[0] in s;
      assert Blocked(d, s, q[0]);
      var u :| u in s && (u, q[0]) in d;
      Prepend(d, u, q);
      p := [u] + q;
    }
  }
}
