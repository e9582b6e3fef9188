/** Sizes of sets, sequences without repeats, and numbered names. */
module Collections {

  ghost predicate Distinct<T>(s: seq<T>) {
    forall i, j :: 0 <= i < j < |s| ==> s[i] != s[j]
  }

  lemma SubsetSize<T>(a: set<T>, b: set<T>)
    requires a <= b
    ensures |a| <= |b|
  {
    assert b == a + (b - a);
  }

  lemma SubsetOfSameSize<T>(a: set<T>, b: set<T>)
    requires a <= b && |b| <= |a|
    ensures a == b
  {
    assert b == a + (b - a);
  }

  lemma UnionSize<T>(a: set<T>, b: set<T>, c: set<T>)
    requires a <= b + c
    ensures |a| <= |b| + |c|
  {
    SubsetSize(a, b + c);
  }

  // ---------------------------------------------------------------- as many names as wanted

  ghost function Name(i: nat): string {
    seq(i + 1, _ => 'a')
  }

  ghost function NamesUpTo(n: nat): set<string> {
    set i: nat | i < n :: Name(i)
  }

  lemma {:induction false} NamesDistinct(n: nat)
    ensures |NamesUpTo(n)| == n && Name(n) !in NamesUpTo(n)
  {
    assert forall i: nat :: |Name(i)| == i + 1;
    if n > 0 {
      NamesDistinct(n - 1);
      assert NamesUpTo(n) == NamesUpTo(n - 1) + {Name(n - 1)};
    }
  }
}
