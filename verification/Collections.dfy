/** Facts about sequences and sets, stated apart so that proofs can use them one at a time. */
module Collections {

  lemma Associate<T>(a: seq<T>, b: seq<T>, c: seq<T>)
    ensures a + (b + c) == a + b + c
  {}

  lemma HeadAndRest<T>(x: T, rest: seq<T>, more: seq<T>)
    ensures ([x] + rest)[1..] == rest && ([x] + rest + more)[1..] == rest + more
    ensures [] + rest == rest && [] + [x] + rest == [x] + rest
  {}

  lemma Reassociate<T>(a: seq<T>, b: seq<T>, c: seq<T>, d: seq<T>)
    ensures a + (b + c + d) == a + b + c + d
  {}

  lemma Glue<T>(x: T, front: seq<T>, s: seq<T>)
    requires front <= s
    ensures ([x] + front) + s[|front|..] == [x] + s
  {}

  lemma TakeConcat<T>(a: seq<T>, b: seq<T>, n: nat)
    requires n <= |a| + |b|
    ensures (a + b)[..n] == if n <= |a| then a[..n] else a + b[..n - |a|]
  {}

  lemma HeadOrRest<T>(s: seq<T>, x: T)
    requires x in s
    ensures x == s[0] || x in s[1..]
  {
    var i :| 0 <= i < |s| && s[i] == x;
    assert i > 0 ==> s[1..][i - 1] == x;
  }

  lemma FirstAndRest<T>(s: seq<T>, i: nat)
    requires i < |s|
    ensures s[i..] == [s[i]] + s[i + 1..]
  {}

  lemma FrontOf<T>(a: seq<T>, b: seq<T>)
    ensures (a + b)[..|a|] == a
  {}

  lemma TakeNone<T>(a: seq<T>, b: seq<T>)
    ensures a + b[..0] == a
  {}

  lemma Longer<T>(a: seq<T>, b: seq<T>, i: nat)
    requires i < |b|
    ensures a + b[..i + 1] == a + b[..i] + [b[i]]
  {}

  lemma TakeAll<T>(a: seq<T>)
    ensures a[..|a|] == a
  {}

  lemma {:induction false} SubsetSize<T>(a: set<T>, b: set<T>)
    requires a <= b
    ensures |a| <= |b|
  {
    if a != {} {
      var x :| x in a;
      SubsetSize(a - {x}, b - {x});
    }
  }

  /** What is still to be found shrinks when something new is found. */
  lemma FewerLeft<T>(universe: set<T>, before: set<T>, after: set<T>)
    requires before <= after <= universe && before != after
    ensures |universe - after| < |universe - before|
  {
    var x :| x in after && x !in before;
    SubsetSize(universe - after, (universe - before) - {x});
  }

  // ----- sequences without repetition

  ghost predicate Distinct<T>(s: seq<T>) {
    forall i, j :: 0 <= i < j < |s| ==> s[i] != s[j]
  }

  /** No two places have the same key. */
  ghost predicate DistinctBy<T, K>(key: T -> K, s: seq<T>) {
    forall i, j :: 0 <= i < j < |s| ==> key(s[i]) != key(s[j])
  }

  lemma SameMembers<T>(a: seq<T>, b: seq<T>)
    requires multiset(a) == multiset(b)
    ensures |a| == |b| && forall x :: x in a <==> x in b
  {
    assert |multiset(a)| == |a| && |multiset(b)| == |b|;
    forall x
      ensures x in a <==> x in b
    {
      assert x in a <==> x in multiset(a);
      assert x in b <==> x in multiset(b);
    }
  }

  lemma TwiceIn<T>(s: seq<T>, i: nat, j: nat)
    requires i < j < |s| && s[i] == s[j]
    ensures multiset(s)[s[i]] >= 2
  {
    assert s == s[..j] + s[j..];
    assert s[..j][i] == s[i] && s[j..][0] == s[i];
    assert multiset(s[..j])[s[i]] >= 1 && multiset(s[j..])[s[i]] >= 1;
  }

  lemma OnceIn<T, K>(key: T -> K, s: seq<T>, i: nat)
    requires i < |s| && DistinctBy(key, s)
    ensures multiset(s)[s[i]] == 1
  {
    var before, after := s[..i], s[i + 1..];
    assert s == before + [s[i]] + after;
    assert forall j :: 0 <= j < |before| ==> before[j] == s[j];
    assert forall j :: 0 <= j < |after| ==> after[j] == s[i + 1 + j];
    assert s[i] !in before && s[i] !in after;
  }

  /** Two places with different keys stay two places in any reordering. */
  lemma DistinctByKept<T, K>(key: T -> K, a: seq<T>, b: seq<T>)
    requires multiset(a) == multiset(b) && DistinctBy(key, a)
    ensures DistinctBy(key, b)
  {
    SameMembers(a, b);
    forall i, j | 0 <= i < j < |b|
      ensures key(b[i]) != key(b[j])
    {
      assert b[i] in b && b[j] in b;
      var k :| 0 <= k < |a| && a[k] == b[i];
      var l :| 0 <= l < |a| && a[l] == b[j];
      if b[i] == b[j] {
        TwiceIn(b, i, j);
        OnceIn(key, a, k);
      } else {
        assert k < l || l < k;
      }
    }
  }
}
