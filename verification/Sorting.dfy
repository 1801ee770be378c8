/** Sorting by a total order: what `sort.Strings` and `sort.Slice` promise, and when the result is unique. */
module Sorting {
  ghost predicate TotalOrder<T(!new)>(le: (T, T) -> bool) {
    && (forall a, b :: le(a, b) || le(b, a))
    && (forall a, b, c :: le(a, b) && le(b, c) ==> le(a, c))
  }

  ghost predicate Ascending<T>(xs: seq<T>, le: (T, T) -> bool) {
    forall i, j | 0 <= i < j < |xs| :: le(xs[i], xs[j])
  }

  function Insert<T>(x: T, xs: seq<T>, le: (T, T) -> bool): seq<T> {
    if |xs| == 0 || le(x, xs[0]) then [x] + xs else [xs[0]] + Insert(x, xs[1..], le)
  }

  function Sort<T>(xs: seq<T>, le: (T, T) -> bool): seq<T> {
    if |xs| == 0 then [] else Insert(xs[0], Sort(xs[1..], le), le)
  }

  lemma {:induction false} InsertKeepsOrder<T(!new)>(x: T, xs: seq<T>, le: (T, T) -> bool)
    requires TotalOrder(le) && Ascending(xs, le)
    ensures Ascending(Insert(x, xs, le), le)
    ensures multiset(Insert(x, xs, le)) == multiset{x} + multiset(xs)
  {
    if |xs| == 0 || le(x, xs[0]) {
      assert [x] + xs == Insert(x, xs, le);
    } else {
      var rest := Insert(x, xs[1..], le);
      InsertKeepsOrder(x, xs[1..], le);
      assert xs == [xs[0]] + xs[1..];
      forall y | y in rest ensures le(xs[0], y) {
        assert y in multiset(rest);
        assert y == x || y in xs[1..];
      }
    }
  }

  /** The result is an ascending permutation of the input. */
  lemma {:induction false} SortSorts<T(!new)>(xs: seq<T>, le: (T, T) -> bool)
    requires TotalOrder(le)
    ensures Ascending(Sort(xs, le), le)
    ensures multiset(Sort(xs, le)) == multiset(xs)
  {
    if |xs| != 0 {
      SortSorts(xs[1..], le);
      InsertKeepsOrder(xs[0], Sort(xs[1..], le), le);
      assert xs == [xs[0]] + xs[1..];
    }
  }

  ghost predicate NoTies<T>(xs: seq<T>, le: (T, T) -> bool) {
    forall i, j | 0 <= i < |xs| && 0 <= j < |xs| && le(xs[i], xs[j]) && le(xs[j], xs[i]) :: xs[i] == xs[j]
  }

  /** Where no two different elements tie, there is one ascending order only. */
  lemma {:induction false} SortIsUnique<T>(xs: seq<T>, ys: seq<T>, le: (T, T) -> bool)
    requires Ascending(xs, le) && Ascending(ys, le)
    requires multiset(xs) == multiset(ys)
    requires NoTies(xs, le)
    ensures xs == ys
  {
    if |xs| == 0 {
      assert |multiset(ys)| == 0;
    } else {
      SameHead(xs, ys, le);
      SameTail(xs, ys);
      SortIsUnique(xs[1..], ys[1..], le);
      assert xs == [xs[0]] + xs[1..] && ys == [ys[0]] + ys[1..];
    }
  }

  lemma SameTail<T>(xs: seq<T>, ys: seq<T>)
    requires |xs| != 0 && |ys| != 0 && xs[0] == ys[0] && multiset(xs) == multiset(ys)
    ensures multiset(xs[1..]) == multiset(ys[1..])
  {
    assert xs == [xs[0]] + xs[1..] && ys == [ys[0]] + ys[1..];
    assert multiset(xs[1..]) == multiset(xs) - multiset{xs[0]};
    assert multiset(ys[1..]) == multiset(ys) - multiset{ys[0]};
  }

  lemma SameHead<T>(xs: seq<T>, ys: seq<T>, le: (T, T) -> bool)
    requires |xs| != 0 && Ascending(xs, le) && Ascending(ys, le)
    requires multiset(xs) == multiset(ys)
    requires NoTies(xs, le)
    ensures |ys| == |xs| && xs[0] == ys[0]
  {
    assert |ys| == |multiset(ys)| == |xs|;
    assert xs[0] in multiset(ys) && ys[0] in multiset(xs);
    var i :| 0 <= i < |ys| && ys[i] == xs[0];
    var j :| 0 <= j < |xs| && xs[j] == ys[0];
  }

  /** Some enumeration of a set: the order in which Go ranges over a map. */
  ghost function SomeOrder<T>(s: set<T>): (r: seq<T>)
    ensures multiset(r) == multiset(s)
  {
    if s == {} then [] else
      var x :| x in s;
      assert multiset(s) == multiset(s - {x}) + multiset{x};
      [x] + SomeOrder(s - {x})
  }

  /** The elements of a set in ascending order. */
  ghost function InOrder<T>(s: set<T>, le: (T, T) -> bool): seq<T> {
    Sort(SomeOrder(s), le)
  }

  lemma InOrderSorts<T(!new)>(s: set<T>, le: (T, T) -> bool)
    requires TotalOrder(le)
    ensures Ascending(InOrder(s, le), le)
    ensures multiset(InOrder(s, le)) == multiset(s)
    ensures forall x :: x in InOrder(s, le) <==> x in s
    ensures forall i, j | 0 <= i < j < |InOrder(s, le)| :: InOrder(s, le)[i] != InOrder(s, le)[j]
    ensures |InOrder(s, le)| == |s|
  {
    SortSorts(SomeOrder(s), le);
    var r := InOrder(s, le);
    assert forall x :: x in r <==> x in multiset(r);
    NoRepeats(r, s);
    assert |multiset(r)| == |s|;
  }

  lemma NoRepeats<T>(r: seq<T>, s: set<T>)
    requires multiset(r) == multiset(s)
    ensures forall i, j | 0 <= i < j < |r| :: r[i] != r[j]
  {
    forall i, j | 0 <= i < j < |r| ensures r[i] != r[j] {
      assert r == r[..i] + [r[i]] + r[i + 1..j] + [r[j]] + r[j + 1..];
      assert multiset(r)[r[i]] <= 1;
    }
  }

  /** Any enumeration sorts to the same list. */
  lemma SortedEnumeration<T(!new)>(xs: seq<T>, s: set<T>, le: (T, T) -> bool)
    requires TotalOrder(le) && forall a, b | le(a, b) && le(b, a) :: a == b
    requires multiset(xs) == multiset(s)
    ensures Sort(xs, le) == InOrder(s, le)
  {
    SortSorts(xs, le);
    SortSorts(SomeOrder(s), le);
    SortIsUnique(Sort(xs, le), InOrder(s, le), le);
  }
}
