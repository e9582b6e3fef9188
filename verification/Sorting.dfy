/** A stable sort, and what it keeps.

    Insertion keeps a list in order; sorting keeps the elements with their multiplicity, puts them
    in order, leaves what is in order as it is, and does not swap equals.

    The order is any strict weak one, such as that of a key. */
module Sorting {

  function Insert<T>(xs: seq<T>, x: T, before: (T, T) -> bool): (r: seq<T>)
    ensures |r| == |xs| + 1
  {
    if xs == [] then [x]
    else
      var last := xs[|xs| - 1];
      if before(x, last) then Insert(xs[..|xs| - 1], x, before) + [last] else xs + [x]
  }

  /** `sorted(xs, key=...)`, `before` being the strict order of the keys. */
  function Sorted<T>(xs: seq<T>, before: (T, T) -> bool): (r: seq<T>)
    ensures |r| == |xs|
  {
    if xs == [] then [] else Insert(Sorted(xs[..|xs| - 1], before), xs[|xs| - 1], before)
  }

  /** A strict weak order. */
  ghost predicate IsOrdering<T(!new)>(before: (T, T) -> bool) {
    && (forall a, b :: before(a, b) ==> !before(b, a))
    && (forall a, b, c :: !before(b, a) && !before(c, b) ==> !before(c, a))
  }

  ghost predicate InOrder<T>(xs: seq<T>, before: (T, T) -> bool) {
    forall i, j :: 0 <= i < j < |xs| ==> !before(xs[j], xs[i])
  }

  lemma NoneAfter<T>(init: seq<T>, x: T, last: T, r: seq<T>, before: (T, T) -> bool)
    requires multiset(r) == multiset(init) + multiset{x}
    requires !before(last, x) && forall i :: 0 <= i < |init| ==> !before(last, init[i])
    ensures forall i :: 0 <= i < |r| ==> !before(last, r[i])
  {
    forall i | 0 <= i < |r|
      ensures !before(last, r[i])
    {
      assert r[i] in multiset(r);
      if r[i] != x {
        assert r[i] in init;
      }
    }
  }

  lemma OrderGrows<T>(xs: seq<T>, x: T, before: (T, T) -> bool)
    requires InOrder(xs, before) && forall i :: 0 <= i < |xs| ==> !before(x, xs[i])
    ensures InOrder(xs + [x], before)
  {
  }

  lemma {:induction false} InsertSorts<T(!new)>(xs: seq<T>, x: T, before: (T, T) -> bool)
    requires IsOrdering(before) && InOrder(xs, before)
    ensures InOrder(Insert(xs, x, before), before) && multiset(Insert(xs, x, before)) == multiset(xs) + multiset{x}
  {
    if xs != [] {
      var init, last := xs[..|xs| - 1], xs[|xs| - 1];
      assert xs == init + [last];
      assert forall i :: 0 <= i < |init| ==> !before(last, init[i]);
      if before(x, last) {
        InsertSorts(init, x, before);
        NoneAfter(init, x, last, Insert(init, x, before), before);
        OrderGrows(Insert(init, x, before), last, before);
      } else {
        assert forall i :: 0 <= i < |init| ==> !before(x, init[i]);
        OrderGrows(xs, x, before);
      }
      hide InOrder;
    }
  }

  /** Sorting orders the elements and keeps them. */
  lemma {:induction false} SortSorts<T(!new)>(xs: seq<T>, before: (T, T) -> bool)
    requires IsOrdering(before)
    ensures InOrder(Sorted(xs, before), before) && multiset(Sorted(xs, before)) == multiset(xs)
  {
    if xs != [] {
      SortSorts(xs[..|xs| - 1], before);
      InsertSorts(Sorted(xs[..|xs| - 1], before), xs[|xs| - 1], before);
      assert xs == xs[..|xs| - 1] + [xs[|xs| - 1]];
    }
  }

  lemma SameElements<T(!new)>(xs: seq<T>, ys: seq<T>)
    requires multiset(xs) == multiset(ys)
    ensures forall x :: x in xs <==> x in ys
  {
    forall x: T
      ensures x in xs <==> x in ys
    {
      assert x in multiset(xs) <==> x in multiset(ys);
    }
  }

  lemma SortKeepsElements<T(!new)>(xs: seq<T>, before: (T, T) -> bool)
    requires IsOrdering(before)
    ensures forall x :: x in Sorted(xs, before) <==> x in xs
  {
    SortSorts(xs, before);
    SameElements(Sorted(xs, before), xs);
  }

  /** What is in order stays as it is. */
  lemma {:induction false} SortedStays<T>(xs: seq<T>, before: (T, T) -> bool)
    requires InOrder(xs, before)
    ensures Sorted(xs, before) == xs
  {
    if xs != [] {
      SortedStays(xs[..|xs| - 1], before);
      assert xs == xs[..|xs| - 1] + [xs[|xs| - 1]];
    }
  }

  /** One of the elements at `x` comes before one at `y`. */
  ghost predicate Precedes<T>(xs: seq<T>, x: T, y: T) {
    exists i, j :: 0 <= i < j < |xs| && xs[i] == x && xs[j] == y
  }

  lemma PrecedesAppend<T>(xs: seq<T>, x: T, y: T, last: T)
    requires Precedes(xs, x, y) || (x in xs && last == y)
    ensures Precedes(xs + [last], x, y)
  {
    var longer := xs + [last];
    if Precedes(xs, x, y) {
      var i, j :| 0 <= i < j < |xs| && xs[i] == x && xs[j] == y;
      assert longer[i] == x && longer[j] == y;
    } else {
      var i :| 0 <= i < |xs| && xs[i] == x;
      assert longer[i] == x && longer[|xs|] == y;
    }
  }

  lemma {:induction false} InsertHolds<T>(xs: seq<T>, x: T, before: (T, T) -> bool)
    ensures forall z :: z in xs ==> z in Insert(xs, x, before)
  {
    if xs != [] {
      InsertHolds(xs[..|xs| - 1], x, before);
      assert xs == xs[..|xs| - 1] + [xs[|xs| - 1]];
    }
  }

  lemma {:induction false} InsertKeepsPrecedence<T>(xs: seq<T>, z: T, before: (T, T) -> bool, x: T, y: T)
    requires Precedes(xs, x, y)
    ensures Precedes(Insert(xs, z, before), x, y)
  {
    var init, last := xs[..|xs| - 1], xs[|xs| - 1];
    if before(z, last) {
      var i, j :| 0 <= i < j < |xs| && xs[i] == x && xs[j] == y;
      if j < |init| {
        assert init[i] == x && init[j] == y;
        InsertKeepsPrecedence(init, z, before, x, y);
      } else {
        assert init[i] == x;
        InsertHolds(init, z, before);
      }
      PrecedesAppend(Insert(init, z, before), x, y, last);
    } else {
      PrecedesAppend(xs, x, y, z);
    }
  }

  /** The sort is stable: of two elements that are first in the list and have the same key, the
      first one stays first. */
  lemma {:induction false} SortIsStable<T>(x: T, y: T, rest: seq<T>, before: (T, T) -> bool)
    requires !before(y, x)
    ensures Precedes(Sorted([x, y] + rest, before), x, y)
  {
    var xs := [x, y] + rest;
    if rest == [] {
      assert xs == [x, y] && [x, y][..1] == [x] && [x][..0] == [];
      assert Sorted([x], before) == [x];
      assert Sorted([x, y], before) == Insert([x], y, before) == [x, y];
      assert [x, y][0] == x && [x, y][1] == y;
    } else {
      SortIsStable(x, y, rest[..|rest| - 1], before);
      assert xs[..|xs| - 1] == [x, y] + rest[..|rest| - 1] && xs[|xs| - 1] == rest[|rest| - 1];
      InsertKeepsPrecedence(Sorted(xs[..|xs| - 1], before), rest[|rest| - 1], before, x, y);
    }
  }
}
