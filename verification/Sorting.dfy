/** Sorting by insertion, for any strict total order. */
module Sorting {

  ghost predicate StrictTotal<T(!new)>(less: (T, T) -> bool) {
    && (forall a, b :: less(a, b) ==> !less(b, a))
    && (forall a, b, c :: less(a, b) && less(b, c) ==> less(a, c))
    && (forall a, b :: a == b || less(a, b) || less(b, a))
  }

  /** Nothing comes before the first element in the order, nor before the first of the others, and so on. */
  ghost predicate Ordered<T>(less: (T, T) -> bool, s: seq<T>) {
    s != [] ==> NoneBefore(less, s[0], s[1..]) && Ordered(less, s[1..])
  }

  ghost predicate NoneBefore<T>(less: (T, T) -> bool, x: T, s: seq<T>) {
    forall y :: y in s ==> !less(y, x)
  }

  function Insert<T>(less: (T, T) -> bool, x: T, s: seq<T>): seq<T> {
    if s == [] then [x]
    else if less(s[0], x) then [s[0]] + Insert(less, x, s[1..])
    else [x] + s
  }

  function Sort<T>(less: (T, T) -> bool, s: seq<T>): seq<T> {
    if s == [] then [] else Insert(less, s[0], Sort(less, s[1..]))
  }

  lemma {:induction false} InsertKeeps<T>(less: (T, T) -> bool, x: T, s: seq<T>)
    ensures multiset(Insert(less, x, s)) == multiset(s) + multiset{x}
  {
    if s != [] && less(s[0], x) {
      InsertKeeps(less, x, s[1..]);
      assert s == [s[0]] + s[1..];
    }
  }

  /** Sorting is a permutation. */
  lemma {:induction false} SortKeeps<T>(less: (T, T) -> bool, s: seq<T>)
    ensures multiset(Sort(less, s)) == multiset(s)
  {
    if s != [] {
      SortKeeps(less, s[1..]);
      InsertKeeps(less, s[0], Sort(less, s[1..]));
      assert s == [s[0]] + s[1..];
    }
  }

  lemma {:induction false} InsertSorts<T(!new)>(less: (T, T) -> bool, x: T, s: seq<T>)
    requires StrictTotal(less) && Ordered(less, s)
    ensures Ordered(less, Insert(less, x, s))
  {
    if s != [] {
      assert s == [s[0]] + s[1..];
      if less(s[0], x) {
        var rest := Insert(less, x, s[1..]);
        InsertSorts(less, x, s[1..]);
        InsertKeeps(less, x, s[1..]);
        forall y | y in rest
          ensures !less(y, s[0])
        {
          assert y in multiset(rest);
          assert y == x || y in multiset(s[1..]);
        }
        assert ([s[0]] + rest)[1..] == rest;
      } else {
        forall y | y in s
          ensures !less(y, x)
        {
          assert y == s[0] || !less(y, s[0]);
        }
        assert ([x] + s)[1..] == s;
      }
    }
  }

  /** Sorting puts the elements in order. */
  lemma {:induction false} SortSorts<T(!new)>(less: (T, T) -> bool, s: seq<T>)
    requires StrictTotal(less)
    ensures Ordered(less, Sort(less, s))
  {
    if s != [] {
      SortSorts(less, s[1..]);
      InsertSorts(less, s[0], Sort(less, s[1..]));
    }
  }

  lemma SortOne<T>(less: (T, T) -> bool, x: T)
    ensures Sort(less, [x]) == [x]
  {
    assert [x][1..] == [] && Sort(less, [x][1..]) == [];
  }

  /** Two elements that the order tells apart, however they are listed. */
  lemma SortTwo<T>(less: (T, T) -> bool, a: T, b: T)
    requires less(a, b) && !less(b, a)
    ensures Sort(less, [a, b]) == [a, b] && Sort(less, [b, a]) == [a, b]
  {
    SortOne(less, a);
    SortOne(less, b);
    assert [a, b][1..] == [b] && [b, a][1..] == [a] && [a][1..] == [];
    assert Insert(less, b, []) == [b];
    assert Insert(less, a, [b]) == [a] + [b] && Insert(less, b, [a]) == [a] + Insert(less, b, [a][1..]);
  }
}
