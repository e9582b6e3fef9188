/** Finite directed graphs over names, given by their edges: paths, reachability and cycles. */
module Graph {

  type V = string
  type Edges = set<(V, V)>

  ghost predicate IsPath(edges: Edges, path: seq<V>) {
    path != [] && forall i {:trigger path[i]} :: 0 <= i < |path| - 1 ==> (path[i], path[i + 1]) in edges
  }

  ghost predicate IsPathFrom(edges: Edges, path: seq<V>, from: V, to: V) {
    IsPath(edges, path) && path[0] == from && path[|path| - 1] == to
  }

  /** `to` is `from`, or lies somewhere below it. */
  ghost predicate Reaches(edges: Edges, from: V, to: V) {
    exists path :: IsPathFrom(edges, path, from, to)
  }

  ghost predicate Acyclic(edges: Edges) {
    forall a, b :: (a, b) in edges ==> !Reaches(edges, b, a)
  }

  lemma ReachesItself(edges: Edges, a: V)
    ensures Reaches(edges, a, a)
  {
    assert IsPathFrom(edges, [a], a, a);
  }

  lemma EdgeThenReaches(edges: Edges, a: V, b: V, c: V)
    requires (a, b) in edges && Reaches(edges, b, c)
    ensures Reaches(edges, a, c)
  {
    var path :| IsPathFrom(edges, path, b, c);
    assert IsPathFrom(edges, [a] + path, a, c);
  }

  lemma {:induction false} ReachesTransitive(edges: Edges, a: V, b: V, c: V)
    requires Reaches(edges, a, b) && Reaches(edges, b, c)
    ensures Reaches(edges, a, c)
  {
    var first :| IsPathFrom(edges, first, a, b);
    var second :| IsPathFrom(edges, second, b, c);
    var path := first[..|first| - 1] + second;
    forall i | 0 <= i < |path| - 1
      ensures (path[i], path[i + 1]) in edges
    {
      assert i < |first| - 1 ==> first[i] == path[i] && path[i + 1] == first[i + 1];
      assert i >= |first| - 1 ==> path[i] == second[i - |first| + 1];
    }
    assert IsPathFrom(edges, path, a, c);
  }

  lemma ReachesMonotone(edges: Edges, more: Edges, a: V, b: V)
    requires edges <= more && Reaches(edges, a, b)
    ensures Reaches(more, a, b)
  {
    var path :| IsPathFrom(edges, path, a, b);
    assert IsPathFrom(more, path, a, b);
  }

  /** Taking edges away cannot make a cycle. */
  lemma SubgraphAcyclic(edges: Edges, fewer: Edges)
    requires Acyclic(edges) && fewer <= edges
    ensures Acyclic(fewer)
  {
    forall a, b | (a, b) in fewer
      ensures !Reaches(fewer, b, a)
    {
      if Reaches(fewer, b, a) {
        ReachesMonotone(fewer, edges, b, a);
      }
    }
  }

  /** A vertex set that is closed under the edges holds everything its members reach. */
  lemma {:induction false} ClosedHoldsReached(edges: Edges, closed: set<V>, path: seq<V>)
    requires IsPath(edges, path) && path[0] in closed
    requires forall a, b :: (a, b) in edges && a in closed ==> b in closed
    ensures path[|path| - 1] in closed
    decreases |path|
  {
    if |path| > 1 {
      var rest := path[1..];
      assert (path[0], path[1]) in edges;
      assert forall i :: 0 <= i < |rest| ==> rest[i] == path[i + 1];
      ClosedHoldsReached(edges, closed, rest);
    }
  }

  // ---------------------------------------------------------------- edges out of one vertex

  function Fan(from: V, targets: set<V>): Edges {
    set t | t in targets :: (from, t)
  }

  /** A path of the larger graph either stays in the old one, or it gets to `from` and goes on
      from one of the targets without using a new edge again. */
  lemma {:induction false} PathDecomposes(edges: Edges, from: V, targets: set<V>, path: seq<V>)
    requires IsPath(edges + Fan(from, targets), path)
    ensures var a, b := path[0], path[|path| - 1];
            || Reaches(edges, a, b)
            || (Reaches(edges, a, from) && exists t :: t in targets && Reaches(edges, t, b))
    decreases |path|
  {
    var a, b := path[0], path[|path| - 1];
    if |path| == 1 {
      ReachesItself(edges, a);
    } else {
      var rest := path[1..];
      assert (path[0], path[1]) in edges + Fan(from, targets);
      assert forall i :: 0 <= i < |rest| ==> rest[i] == path[i + 1];
      PathDecomposes(edges, from, targets, rest);
      if (a, path[1]) in edges {
        if Reaches(edges, path[1], b) {
          EdgeThenReaches(edges, a, path[1], b);
        } else {
          EdgeThenReaches(edges, a, path[1], from);
        }
      } else {
        assert a == from && path[1] in targets;
        ReachesItself(edges, a);
      }
    }
  }

  /** Edges from one vertex to several targets, all added at once, keep the graph free of
      cycles exactly when none of the targets reaches that vertex in the OLD graph. */
  lemma FanAcyclic(edges: Edges, from: V, targets: set<V>)
    requires Acyclic(edges)
    ensures Acyclic(edges + Fan(from, targets)) <==> forall t :: t in targets ==> !Reaches(edges, t, from)
  {
    var more := edges + Fan(from, targets);
    if forall t :: t in targets ==> !Reaches(edges, t, from) {
      forall a, b | (a, b) in more
        ensures !Reaches(more, b, a)
      {
        if Reaches(more, b, a) {
          FanClosesNoCycle(edges, from, targets, a, b);
        }
      }
    }
    forall t | t in targets && Reaches(edges, t, from)
      ensures !Acyclic(more)
    {
      ReachesMonotone(edges, more, t, from);
      assert (from, t) in more;
    }
  }

  lemma FanClosesNoCycle(edges: Edges, from: V, targets: set<V>, a: V, b: V)
    requires Acyclic(edges) && forall t :: t in targets ==> !Reaches(edges, t, from)
    requires (a, b) in edges + Fan(from, targets)
    ensures !Reaches(edges + Fan(from, targets), b, a)
  {
    var more := edges + Fan(from, targets);
    if Reaches(more, b, a) {
      var path :| IsPathFrom(more, path, b, a);
      PathDecomposes(edges, from, targets, path);
      if (a, b) in edges {
        if !Reaches(edges, b, a) {
          var t :| t in targets && Reaches(edges, t, a);
          EdgeThenReaches(edges, a, b, from);
          ReachesTransitive(edges, t, a, from);
        }
      }
    }
  }

  lemma {:induction false} PathGrows(edges: Edges, path: seq<V>)
    requires IsPath(edges, path) && forall a, b :: (a, b) in edges ==> |a| < |b|
    ensures |path[0]| <= |path[|path| - 1]|
    decreases |path|
  {
    if |path| > 1 {
      var rest := path[1..];
      assert (path[0], path[1]) in edges;
      assert forall i :: 0 <= i < |rest| ==> rest[i] == path[i + 1];
      PathGrows(edges, rest);
    }
  }

  /** Edges that only lead to longer names close no cycle. */
  lemma GrowingIsAcyclic(edges: Edges)
    requires forall a, b :: (a, b) in edges ==> |a| < |b|
    ensures Acyclic(edges)
  {
    forall a, b | (a, b) in edges
      ensures !Reaches(edges, b, a)
    {
      if Reaches(edges, b, a) {
        var path :| IsPathFrom(edges, path, b, a);
        PathGrows(edges, path);
      }
    }
  }
}
