/** The realm's roles and what they contain (`roles_service.py`). */
module Roles {
  import opened Collections
  import opened Graph

  // A composite role contains other roles, so the realm is a graph. Creating, changing and
  // deleting a role are sequences of Keycloak calls; every one of them may fail, and what was
  // written before stays. The bounded walk is the only guard against a role that comes to
  // hold itself.

  /** One entry of a role's composites. The roles of clients are listed among them but are no
      vertices of this graph. */
  datatype Member = Member(name: string, clientRole: bool)

  /** Every realm role, with what it contains in the order Keycloak lists it. */
  type Realm = map<string, seq<Member>>

  const MAX_WALK: nat := 500

  predicate IsInner(m: Member) {
    !m.clientRole && m.name != ""
  }

  function InnerNames(members: seq<Member>): set<string> {
    if members == [] then {}
    else (if IsInner(members[0]) then {members[0].name} else {}) + InnerNames(members[1..])
  }

  function EdgesOf(realm: Realm): Edges {
    set role, n | role in realm && n in InnerNames(realm[role]) :: (role, n)
  }

  /** Keycloak's own rule: what a role contains exists. */
  ghost predicate Closed(realm: Realm) {
    forall a, b :: (a, b) in EdgesOf(realm) ==> b in realm
  }

  // ---------------------------------------------------------------- the walk

  /** One expansion: queue every member that was not seen before. */
  function Visit(members: seq<Member>, queue: seq<string>, seen: set<string>): (r: (seq<string>, set<string>))
    ensures r.1 == seen + InnerNames(members)
    ensures |r.0| + |seen| == |queue| + |r.1|
  {
    if members == [] then (queue, seen)
    else
      var m := members[0];
      if IsInner(m) && m.name !in seen then Visit(members[1..], queue + [m.name], seen + {m.name})
      else Visit(members[1..], queue, seen)
  }

  lemma {:induction false} VisitQueues(members: seq<Member>, queue: seq<string>, seen: set<string>, n: string)
    ensures n in Visit(members, queue, seen).0 <==> n in queue || n in InnerNames(members) - seen
  {
    if members != [] {
      var m := members[0];
      if IsInner(m) && m.name !in seen {
        VisitQueues(members[1..], queue + [m.name], seen + {m.name}, n);
      } else {
        VisitQueues(members[1..], queue, seen, n);
      }
    }
  }

  /** What is left to do when the walk holds `queue` and `seen`. */
  function Walk(realm: Realm, queue: seq<string>, seen: set<string>, target: string): bool
    requires Closed(realm) && seen <= realm.Keys && forall n :: n in queue ==> n in seen
    decreases |realm.Keys - seen| + |queue|
  {
    if queue == [] || |seen| >= MAX_WALK then target in seen
    else
      var current := queue[|queue| - 1];
      if current == target then true
      else
        var (queue', seen') := Visit(realm[current], queue[..|queue| - 1], seen);
        ExpansionStaysInRealm(realm, current, seen);
        assert forall n :: n in queue' ==> n in seen' by {
          forall n | n in queue' { VisitQueues(realm[current], queue[..|queue| - 1], seen, n); }
        }
        assert |realm.Keys - seen'| + |seen'| == |realm.Keys - seen| + |seen| by {
          assert realm.Keys - seen' + seen' == realm.Keys == realm.Keys - seen + seen;
        }
        Walk(realm, queue', seen', target)
  }

  function WalkFrom(realm: Realm, start: string, target: string): bool
    requires Closed(realm) && start in realm
  {
    Walk(realm, [start], {start}, target)
  }

  lemma ExpansionStaysInRealm(realm: Realm, current: string, seen: set<string>)
    requires Closed(realm) && seen <= realm.Keys && current in seen
    ensures seen + InnerNames(realm[current]) <= realm.Keys
  {
    forall n | n in InnerNames(realm[current])
      ensures n in realm
    {
      assert (current, n) in EdgesOf(realm);
    }
  }

  /** The roles a walk from `start` can come to. */
  ghost function Below(realm: Realm, start: string): set<string> {
    set role | role in realm && Reaches(EdgesOf(realm), start, role)
  }

  /** Everything seen lies below `start`, and what left the queue was expanded and is not the
      target. */
  ghost predicate WalkInvariant(realm: Realm, start: string, target: string, queue: seq<string>, seen: set<string>) {
    && start in seen && seen <= Below(realm, start)
    && (forall n :: n in queue ==> n in seen)
    && (forall n :: n in seen && n !in queue ==> n != target)
    && (forall a, b :: (a, b) in EdgesOf(realm) && a in seen && a !in queue ==> b in seen)
  }

  lemma MembersAreBelow(realm: Realm, start: string, current: string)
    requires Closed(realm) && current in Below(realm, start)
    ensures InnerNames(realm[current]) <= Below(realm, start)
  {
    forall n | n in InnerNames(realm[current])
      ensures n in Below(realm, start)
    {
      assert (current, n) in EdgesOf(realm);
      ReachesItself(EdgesOf(realm), n);
      EdgeThenReaches(EdgesOf(realm), current, n, n);
      ReachesTransitive(EdgesOf(realm), start, current, n);
    }
  }

  lemma ExpansionKeepsInvariant(realm: Realm, start: string, target: string, queue: seq<string>, seen: set<string>)
    requires Closed(realm) && WalkInvariant(realm, start, target, queue, seen)
    requires queue != [] && queue[|queue| - 1] != target
    ensures queue[|queue| - 1] in seen && seen <= realm.Keys
    ensures var (queue', seen') := Visit(realm[queue[|queue| - 1]], queue[..|queue| - 1], seen);
            WalkInvariant(realm, start, target, queue', seen')
  {
    hide Reaches, IsPath, IsPathFrom, InnerNames, Closed;
    var current, left := queue[|queue| - 1], queue[..|queue| - 1];
    assert current in queue && seen <= realm.Keys;
    var (queue', seen') := Visit(realm[current], left, seen);
    assert queue == left + [current];
    MembersAreBelow(realm, start, current);
    forall n: string
      ensures n in queue' <==> n in left || n in InnerNames(realm[current]) - seen
    {
      VisitQueues(realm[current], left, seen, n);
    }
    assert forall n :: n in queue ==> n in left || n == current;
  }

  /** A seen set that is closed is all there is. */
  lemma ClosedIsBelow(realm: Realm, start: string, target: string, seen: set<string>)
    requires WalkInvariant(realm, start, target, [], seen)
    ensures seen == Below(realm, start)
  {
    forall role | role in Below(realm, start)
      ensures role in seen
    {
      var path :| IsPathFrom(EdgesOf(realm), path, start, role);
      ClosedHoldsReached(EdgesOf(realm), seen, path);
    }
  }

  lemma {:induction false} WalkAnswers(realm: Realm, start: string, target: string, queue: seq<string>, seen: set<string>)
    requires Closed(realm) && target in realm && WalkInvariant(realm, start, target, queue, seen)
    ensures Walk(realm, queue, seen, target) ==> Reaches(EdgesOf(realm), start, target)
    ensures |Below(realm, start)| <= MAX_WALK && Reaches(EdgesOf(realm), start, target)
            ==> Walk(realm, queue, seen, target)
    decreases |realm.Keys - seen| + |queue|
  {
    if queue == [] {
      ClosedIsBelow(realm, start, target, seen);
    } else if |seen| >= MAX_WALK {
      if |Below(realm, start)| <= MAX_WALK {
        SubsetOfSameSize(seen, Below(realm, start));
      }
    } else if queue[|queue| - 1] != target {
      var current, left := queue[|queue| - 1], queue[..|queue| - 1];
      ExpansionKeepsInvariant(realm, start, target, queue, seen);
      var (queue', seen') := Visit(realm[current], left, seen);
      ExpansionStaysInRealm(realm, current, seen);
      assert |realm.Keys - seen'| + |seen'| == |realm.Keys - seen| + |seen| by {
        assert realm.Keys - seen' + seen' == realm.Keys == realm.Keys - seen + seen;
      }
      WalkAnswers(realm, start, target, queue', seen');
    }
  }

  /** The walk never claims a role that cannot be reached, and it is exact while no more than
      `MAX_WALK` roles lie below the start. */
  lemma WalkIsReachability(realm: Realm, start: string, target: string)
    requires Closed(realm) && start in realm && target in realm
    ensures WalkFrom(realm, start, target) ==> Reaches(EdgesOf(realm), start, target)
    ensures |Below(realm, start)| <= 500 ==>
              (WalkFrom(realm, start, target) <==> Reaches(EdgesOf(realm), start, target))
  {
    ReachesItself(EdgesOf(realm), start);
    WalkAnswers(realm, start, target, [start], {start});
  }

  // ---------------------------------------------------------------- the limit of the walk

  ghost predicate WalkIsExact(realm: Realm, start: string, target: string) {
    Closed(realm) && start in realm && target in realm
    ==> (WalkFrom(realm, start, target) <==> Reaches(EdgesOf(realm), start, target))
  }

  /** A role that holds 499 others, one of which holds one more: the last one is the 501st. */
  ghost function CrowdMembers(i: nat): seq<Member> {
    if i == 0 then seq(MAX_WALK - 1, k requires 0 <= k => Member(Name(k + 1), false))
    else if i == 1 then [Member(Name(MAX_WALK), false)]
    else []
  }

  ghost function Crowd(): (realm: Realm)
    ensures realm.Keys == NamesUpTo(MAX_WALK + 1)
    ensures forall i: nat :: i <= MAX_WALK ==> realm[Name(i)] == CrowdMembers(i)
  {
    assert forall i: nat :: |Name(i)| == i + 1;
    map n | n in NamesUpTo(MAX_WALK + 1) :: CrowdMembers(|n| - 1)
  }

  lemma {:induction false} InnerNamesAre(members: seq<Member>, n: string)
    ensures n in InnerNames(members) <==> n != "" && Member(n, false) in members
  {
    if members != [] {
      InnerNamesAre(members[1..], n);
      assert members == [members[0]] + members[1..];
    }
  }

  lemma CrowdHeldByFirst(n: string)
    ensures n in InnerNames(CrowdMembers(0)) <==> n in NamesUpTo(MAX_WALK) - {Name(0)}
  {
    hide InnerNames;
    var members := CrowdMembers(0);
    assert forall k: nat :: |Name(k)| == k + 1;
    InnerNamesAre(members, n);
    if n in InnerNames(members) {
      var m :| m in members && IsInner(m) && m.name == n;
      var k :| 0 <= k < |members| && members[k] == m;
      assert n == Name(k + 1);
    }
    if n in NamesUpTo(MAX_WALK) - {Name(0)} {
      var k: nat :| k < MAX_WALK && n == Name(k);
      assert members[k - 1] == Member(n, false);
    }
  }

  lemma CrowdInner(i: nat)
    requires i <= MAX_WALK
    ensures i == 0 ==> InnerNames(CrowdMembers(i)) == NamesUpTo(MAX_WALK) - {Name(0)}
    ensures i == 1 ==> InnerNames(CrowdMembers(i)) == {Name(MAX_WALK)}
    ensures i > 1 ==> InnerNames(CrowdMembers(i)) == {}
  {
    if i == 0 {
      forall n: string
        ensures n in InnerNames(CrowdMembers(0)) <==> n in NamesUpTo(MAX_WALK) - {Name(0)}
      {
        CrowdHeldByFirst(n);
      }
    }
  }

  lemma CrowdIsClosed()
    ensures Closed(Crowd())
  {
    forall a, b | (a, b) in EdgesOf(Crowd())
      ensures b in Crowd()
    {
      var i: nat :| i < MAX_WALK + 1 && a == Name(i);
      CrowdInner(i);
    }
  }

  lemma CrowdReachesLast()
    ensures Name(0) in Crowd() && Name(MAX_WALK) in Crowd()
    ensures Reaches(EdgesOf(Crowd()), Name(0), Name(MAX_WALK))
  {
    hide Reaches, IsPath, IsPathFrom, InnerNames;
    CrowdInner(0);
    CrowdInner(1);
    assert |Name(0)| != |Name(1)|;
    var edges := EdgesOf(Crowd());
    assert (Name(0), Name(1)) in edges && (Name(1), Name(MAX_WALK)) in edges;
    ReachesItself(edges, Name(MAX_WALK));
    EdgeThenReaches(edges, Name(1), Name(MAX_WALK), Name(MAX_WALK));
    EdgeThenReaches(edges, Name(0), Name(1), Name(MAX_WALK));
  }

  /** A start that holds enough roles to fill the walk: nothing below them is looked at. */
  lemma FullAtOnce(realm: Realm, start: string, target: string)
    requires Closed(realm) && start in realm && start != target
    requires target !in InnerNames(realm[start])
    requires |{start} + InnerNames(realm[start])| >= MAX_WALK
    ensures !WalkFrom(realm, start, target)
  {
    assert [start][..0] == [];
    var (queue, seen) := Visit(realm[start], [], {start});
    ExpansionStaysInRealm(realm, start, {start});
    forall n | n in queue
      ensures n in seen
    {
      VisitQueues(realm[start], [], {start}, n);
    }
    assert !Walk(realm, queue, seen, target);
  }

  /** In the crowd the walk stops before it expands the role that holds the last one. */
  lemma CrowdIsMissed()
    ensures Closed(Crowd()) && Name(0) in Crowd()
    ensures !WalkFrom(Crowd(), Name(0), Name(MAX_WALK))
  {
    hide InnerNames, Walk, WalkFrom, CrowdMembers;
    CrowdIsClosed();
    CrowdInner(0);
    NamesDistinct(MAX_WALK);
    assert |Name(0)| != |Name(MAX_WALK)|;
    assert {Name(0)} + InnerNames(CrowdMembers(0)) == NamesUpTo(MAX_WALK);
    FullAtOnce(Crowd(), Name(0), Name(MAX_WALK));
  }

  /** The walk answers exactly for every realm in which at most `n` roles lie below the start
      if and only if `n` is at most `MAX_WALK`. */
  lemma WalkLimit(n: nat)
    ensures (forall realm, start, target :: |Below(realm, start)| <= n ==> WalkIsExact(realm, start, target))
            <==> n <= 500
  {
    if n <= MAX_WALK {
      forall realm, start, target | |Below(realm, start)| <= n
        ensures WalkIsExact(realm, start, target)
      {
        if Closed(realm) && start in realm && target in realm {
          WalkIsReachability(realm, start, target);
        }
      }
    } else {
      CrowdIsMissed();
      CrowdReachesLast();
      NamesDistinct(MAX_WALK + 1);
      SubsetSize(Below(Crowd(), Name(0)), Crowd().Keys);
      assert |Below(Crowd(), Name(0))| <= n && !WalkIsExact(Crowd(), Name(0), Name(MAX_WALK));
    }
  }
}
