/** Node names in the order Rust's `BTreeSet<String>` and `BTreeMap<String, _>` iterate them.

    Comparing UTF-8 bytes orders strings exactly as comparing Unicode scalar values does, so
    the order is lexicographic on characters. */
module Names {

  /** Strict lexicographic order. */
  predicate Less(a: string, b: string) {
    if b == "" then false
    else if a == "" then true
    else a[0] < b[0] || (a[0] == b[0] && Less(a[1..], b[1..]))
  }

  /** The first character in which they differ decides, else the shorter comes first. */
  ghost predicate DecidedAt(a: string, b: string, i: nat) {
    i < |b| && i <= |a| && a[..i] == b[..i] && (i == |a| || a[i] < b[i])
  }

  lemma SameStart(a: string, b: string, i: nat)
    requires DecidedAt(a, b, i) && i > 0
    ensures a != "" && b != "" && a[0] == b[0]
  {
    assert a[..i][0] == b[..i][0];
  }

  lemma {:induction false} LessIff(a: string, b: string)
    ensures Less(a, b) <==> exists i :: DecidedAt(a, b, i)
  {
    if a == "" || b == "" || a[0] != b[0] {
      assert DecidedAt(a, b, 0) <==> Less(a, b);
      if i: nat :| DecidedAt(a, b, i) && i > 0 {
        SameStart(a, b, i);
      }
    } else {
      LessIff(a[1..], b[1..]);
      if i: nat :| DecidedAt(a[1..], b[1..], i) {
        assert a[..i + 1] == [a[0]] + a[1..][..i] && b[..i + 1] == [b[0]] + b[1..][..i];
        assert DecidedAt(a, b, i + 1);
      }
      if i: nat :| DecidedAt(a, b, i) {
        assert i > 0 && a[1..][..i - 1] == a[..i][1..] && b[1..][..i - 1] == b[..i][1..];
        assert DecidedAt(a[1..], b[1..], i - 1);
      }
    }
  }

  lemma {:induction false} LessIrreflexive(a: string)
    ensures !Less(a, a)
  {
    if a != "" {
      LessIrreflexive(a[1..]);
    }
  }

  lemma {:induction false} LessTransitive(a: string, b: string, c: string)
    requires Less(a, b) && Less(b, c)
    ensures Less(a, c)
  {
    if a != "" && a[0] == b[0] && b[0] == c[0] {
      LessTransitive(a[1..], b[1..], c[1..]);
    }
  }

  lemma {:induction false} LessTotal(a: string, b: string)
    ensures a == b || Less(a, b) || Less(b, a)
  {
    if a != "" && b != "" && a[0] == b[0] {
      LessTotal(a[1..], b[1..]);
      if a[1..] == b[1..] {
        assert a == [a[0]] + a[1..] == b;
      }
    }
  }

  /** A strictly ascending listing: no repetition, and in iteration order. */
  predicate Ascending(s: seq<string>) {
    forall i, j {:trigger Less(s[i], s[j])} :: 0 <= i < j < |s| ==> Less(s[i], s[j])
  }

  function Elements(s: seq<string>): set<string> {
    set x | x in s
  }

  lemma LastOfElements(s: seq<string>)
    requires s != []
    ensures s[|s| - 1] in Elements(s) && Elements(s) == Elements(s[..|s| - 1]) + {s[|s| - 1]}
  {
    assert s == s[..|s| - 1] + [s[|s| - 1]];
  }

  predicate Least(m: string, s: set<string>) {
    m in s && forall x :: x in s ==> x == m || Less(m, x)
  }

  lemma {:induction false} LeastExists(s: set<string>)
    requires s != {}
    ensures exists m :: Least(m, s)
  {
    var x :| x in s;
    var rest := s - {x};
    if rest == {} {
      assert s == {x};
      assert Least(x, s);
    } else {
      LeastExists(rest);
      var m :| Least(m, rest);
      LessTotal(x, m);
      if Less(m, x) {
        assert Least(m, s);
      } else {
        forall y | y in s
          ensures y == x || Less(x, y)
        {
          if y != x && y != m {
            LessTransitive(x, m, y);
          }
        }
        assert Least(x, s);
      }
    }
  }

  lemma LeastFirst(m: string, s: set<string>, rest: seq<string>)
    requires Least(m, s)
    requires Ascending(rest) && Elements(rest) == s - {m}
    ensures Ascending([m] + rest)
    ensures Elements([m] + rest) == s
  {
    var r := [m] + rest;
    forall i, j | 0 <= i < j < |r|
      ensures Less(r[i], r[j])
    {
      assert r[j] == rest[j - 1] && r[j] in Elements(rest);
    }
    forall x | x in s
      ensures x in r
    {
      if x != m {
        assert x in Elements(rest);
        var i :| 0 <= i < |rest| && rest[i] == x;
        assert r[i + 1] == x;
      }
    }
    assert r[0] == m;
    forall x | x in r
      ensures x in s
    {
      if x != m {
        assert x in rest && x in Elements(rest);
      }
    }
  }

  /** Only one ascending listing of a set exists. */
  lemma {:induction false} AscendingUnique(a: seq<string>, b: seq<string>)
    requires Ascending(a) && Ascending(b)
    requires Elements(a) == Elements(b)
    ensures a == b
  {
    assert b == [] || b[0] in Elements(b);
    if a != [] {
      assert a[0] in Elements(b);
      assert b != [];
      AscendingHead(a, b);
      AscendingTail(a);
      AscendingTail(b);
      AscendingUnique(a[1..], b[1..]);
      assert a == [a[0]] + a[1..];
      assert b == [b[0]] + b[1..];
    }
  }

  lemma AscendingHead(a: seq<string>, b: seq<string>)
    requires a != [] && b != []
    requires Ascending(a) && Ascending(b)
    requires Elements(a) == Elements(b)
    ensures a[0] == b[0]
  {
    assert a[0] in Elements(b) && b[0] in Elements(a);
    if a[0] != b[0] {
      assert Less(b[0], a[0]) && Less(a[0], b[0]);
      LessTransitive(a[0], b[0], a[0]);
      LessIrreflexive(a[0]);
    }
  }

  lemma AscendingTail(a: seq<string>)
    requires a != []
    requires Ascending(a)
    ensures Ascending(a[1..])
    ensures Elements(a[1..]) == Elements(a) - {a[0]}
  {
    LessIrreflexive(a[0]);
    forall x | x in Elements(a) - {a[0]}
      ensures x in a[1..]
    {
      var i :| 0 <= i < |a| && a[i] == x;
      assert a[1..][i - 1] == x;
    }
    forall x | x in a[1..]
      ensures x in Elements(a) - {a[0]}
    {
      var i :| 0 <= i < |a[1..]| && a[1..][i] == x;
      assert Less(a[0], a[i + 1]);
    }
  }

  lemma {:induction false} SortedExists(s: set<string>)
    ensures exists r :: Ascending(r) && Elements(r) == s
  {
    if s == {} {
      assert Ascending([]) && Elements([]) == s;
    } else {
      LeastExists(s);
      var m :| Least(m, s);
      SortedExists(s - {m});
      var rest :| Ascending(rest) && Elements(rest) == s - {m};
      LeastFirst(m, s, rest);
    }
  }

  /** The ascending listing of a set of names: what iterating a `BTreeSet` yields. */
  function Sorted(s: set<string>): (r: seq<string>)
    ensures Ascending(r)
    ensures Elements(r) == s
  {
    SortedExists(s);
    SortedUnique(s);
    var r :| Ascending(r) && Elements(r) == s;
    r
  }

  lemma SortedUnique(s: set<string>)
    ensures forall a, b :: Ascending(a) && Elements(a) == s && Ascending(b) && Elements(b) == s ==> a == b
  {
    forall a, b | Ascending(a) && Elements(a) == s && Ascending(b) && Elements(b) == s
      ensures a == b
    {
      AscendingUnique(a, b);
    }
  }

  // ----- lists of names, shorter first and then lexicographically

  predicate ListLess(p: seq<string>, q: seq<string>) {
    if q == [] then false
    else if p == [] then true
    else Less(p[0], q[0]) || (p[0] == q[0] && ListLess(p[1..], q[1..]))
  }

  predicate Before(p: seq<string>, q: seq<string>) {
    |p| < |q| || (|p| == |q| && ListLess(p, q))
  }

  predicate NotAfter(p: seq<string>, q: seq<string>) {
    p == q || Before(p, q)
  }

  lemma {:induction false} ListLessIrreflexive(p: seq<string>)
    ensures !ListLess(p, p)
  {
    if p != [] {
      LessIrreflexive(p[0]);
      ListLessIrreflexive(p[1..]);
    }
  }

  lemma {:induction false} ListLessTransitive(p: seq<string>, q: seq<string>, r: seq<string>)
    requires ListLess(p, q) && ListLess(q, r)
    ensures ListLess(p, r)
  {
    if p != [] {
      LessIrreflexive(p[0]);
      LessIrreflexive(q[0]);
      if p[0] == q[0] && q[0] == r[0] {
        ListLessTransitive(p[1..], q[1..], r[1..]);
      } else if p[0] != q[0] && q[0] != r[0] {
        LessTransitive(p[0], q[0], r[0]);
      }
    }
  }

  lemma {:induction false} ListLessTotal(p: seq<string>, q: seq<string>)
    requires |p| == |q|
    ensures p == q || ListLess(p, q) || ListLess(q, p)
  {
    if p != [] {
      LessTotal(p[0], q[0]);
      ListLessTotal(p[1..], q[1..]);
      assert p == [p[0]] + p[1..] && q == [q[0]] + q[1..];
    }
  }

  lemma BeforeTransitive(p: seq<string>, q: seq<string>, r: seq<string>)
    requires Before(p, q) && Before(q, r)
    ensures Before(p, r)
  {
    if |p| == |q| == |r| {
      ListLessTransitive(p, q, r);
    }
  }

  lemma BeforeNotAfter(p: seq<string>, q: seq<string>)
    requires Before(p, q)
    ensures !NotAfter(q, p)
  {
    if NotAfter(q, p) {
      if Before(q, p) {
        BeforeTransitive(p, q, p);
      }
      ListLessIrreflexive(p);
    }
  }

  lemma {:induction false} ListLessAppend(p: seq<string>, v: string, q: seq<string>, w: string)
    requires |p| == |q|
    requires ListLess(p, q) || (p == q && Less(v, w))
    ensures ListLess(p + [v], q + [w])
  {
    if p == [] {
    } else {
      LessIrreflexive(p[0]);
      assert (p + [v])[1..] == p[1..] + [v];
      assert (q + [w])[1..] == q[1..] + [w];
      if p[0] == q[0] && (ListLess(p[1..], q[1..]) || p == q) {
        ListLessAppend(p[1..], v, q[1..], w);
      }
    }
  }

  lemma BeforeAppend(p: seq<string>, v: string, q: seq<string>, w: string)
    requires Before(p, q) || (p == q && Less(v, w))
    ensures Before(p + [v], q + [w])
  {
    if |p| == |q| {
      ListLessAppend(p, v, q, w);
    }
  }
}
