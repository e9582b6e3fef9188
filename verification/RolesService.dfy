/** What the Roles page changes (`RolesService`), call by call against a realm that keeps
    whatever was written before a call failed. */
module RolesService {
  import opened Collections
  import opened Graph
  import opened Roles
  import opened Text

  predicate IsTechnical(name: string) {
    name == "offline_access" || name == "uma_authorization" || "default-roles-" <= name
  }

  predicate IsAlnum(c: char) {
    'A' <= c <= 'Z' || 'a' <= c <= 'z' || '0' <= c <= '9'
  }

  predicate ValidName(name: string) {
    && 1 <= |name| <= 127 && IsAlnum(name[0])
    && forall i :: 0 <= i < |name| ==> IsAlnum(name[i]) || name[i] in {'.', '_', ':', '-'}
  }

  /** Names of 1 to 127 letters, digits and `._:-` that start with a letter or digit. */
  lemma RoleNames(name: string)
    ensures ValidName(name) <==>
              && 0 < |name| < 128 && (name[0] in UPPER_CASE || name[0] in LOWER_CASE || name[0] in DECIMALS)
              && forall c :: c in name ==> c in UPPER_CASE || c in LOWER_CASE || c in DECIMALS || c in "._:-"
  {
    forall c
      ensures IsAlnum(c) <==> c in UPPER_CASE || c in LOWER_CASE || c in DECIMALS
    {
      UpperAreListed(c);
      LowerAreListed(c);
      DecimalsAreListed(c);
    }
    hide IsAlnum, UPPER_CASE, LOWER_CASE, DECIMALS;
    assert forall c :: c in "._:-" <==> c in {'.', '_', ':', '-'};
  }

  /** The roles a request may name: every one that is not Keycloak's own. */
  function Known(realm: Realm): set<string> {
    set n | n in realm && n != "" && !IsTechnical(n)
  }

  function Inner(realm: Realm, name: string): set<string> {
    if name in realm then InnerNames(realm[name]) else {}
  }

  datatype Outcome =
    | Created
    | Changed(added: set<string>, removed: set<string>)
    | Deleted
    | Refused                   // the request itself is not acceptable, nothing was written
    | NotFound
    | Conflict
    | Failed                    // a Keycloak call failed, what was written before it stays
    | Crashed                   // a member to remove has no entry among the known roles

  /** What one request may do to the realm. `done` says how many of its writes took place. */
  datatype Op =
    | Nothing
    | Create(name: string, members: set<string>, done: nat)
    | Update(name: string, members: set<string>, done: nat)
    | Delete(name: string)

  /** The guard of an update: no member to add leads back to the role. */
  ghost predicate GuardPasses(realm: Realm, name: string, toAdd: set<string>) {
    forall m :: m in toAdd ==> Closed(realm) && m in realm && !WalkFrom(realm, m, name)
  }

  /** The effect of `op`, as roles and edges. An update adds before it removes, so one that
      stops in between has only added. */
  ghost predicate Takes(op: Op, before: Realm, after: Realm) {
    match op
    case Nothing =>
      after == before
    case Create(name, members, done) =>
      && name !in before && members <= Known(before)
      && after.Keys == before.Keys + {name}
      && EdgesOf(after) == EdgesOf(before) + (if done < 2 then {} else Fan(name, members))
    case Update(name, members, done) =>
      && name in Known(before) && members <= Known(before)
      && GuardPasses(before, name, members - Inner(before, name))
      && after.Keys == before.Keys
      && EdgesOf(after) == EdgesOf(before)
         + (if done < 1 then {} else Fan(name, members - Inner(before, name)))
         - (if done < 2 then {} else Fan(name, Inner(before, name) - members))
    case Delete(name) =>
      && after.Keys == before.Keys - {name}
      && EdgesOf(after) == set e | e in EdgesOf(before) && e.0 != name && e.1 != name
  }

  // ---------------------------------------------------------------- how an update ends

  /** The description of a request: whether it is one the service takes, and whether it differs. */
  datatype Description = Description(acceptable: bool, changed: bool)

  /** Which of the writes of an update fail, if they are made. */
  datatype Faults = Faults(describe: bool, add: bool, remove: bool)

  ghost predicate IsAccepted(realm: Realm, builtIn: set<string>, name: string, members: set<string>, d: Description) {
    && !IsTechnical(name) && name !in builtIn && d.acceptable && name in Known(realm)
    && members <= Known(realm) && GuardPasses(realm, name, members - Inner(realm, name))
  }

  ghost function UpdateOutcome(realm: Realm, builtIn: set<string>, name: string, members: set<string>, d: Description,
                               faults: Faults): Outcome
  {
    var before := Inner(realm, name);
    var toAdd, toRemove := members - before, before - members;
    if IsTechnical(name) || name in builtIn || !d.acceptable then Refused
    else if name !in Known(realm) then NotFound
    else if !IsAccepted(realm, builtIn, name, members, d) then Refused
    else if (d.changed && faults.describe) || (faults.add && toAdd != {}) then Failed
    else if !(toRemove <= Known(realm)) then Crashed
    else if faults.remove && toRemove != {} then Failed
    else Changed(toAdd, toRemove)
  }

  /** How an update ends, by the request and the realm. */
  lemma UpdateEnds(realm: Realm, builtIn: set<string>, name: string, members: set<string>, d: Description, faults: Faults)
    ensures var outcome, before := UpdateOutcome(realm, builtIn, name, members, d, faults), Inner(realm, name);
            var editable := name != "offline_access" && name != "uma_authorization" && !("default-roles-" <= name) && name !in builtIn;
            var accepted := && editable && d.acceptable && name in Known(realm) && members <= Known(realm)
                            && GuardPasses(realm, name, members - before);
            var writes := !(d.changed && faults.describe) && (members <= before || !faults.add);
            && (outcome == NotFound <==> editable && d.acceptable && name !in Known(realm))
            && (outcome == Refused <==>
                  !editable || !d.acceptable || (name in Known(realm) && !accepted))
            && (outcome.Changed? <==>
                  accepted && writes && (before <= members || (!faults.remove && before - members <= Known(realm))))
            && (outcome.Changed? ==> outcome == Changed(members - before, before - members))
            && (outcome == Failed <==>
                  accepted && (!writes || (faults.remove && !(before <= members) && before - members <= Known(realm))))
            && (outcome == Crashed <==> accepted && writes && !(before - members <= Known(realm)))
  {
    hide GuardPasses, Known, Inner;
    var before := Inner(realm, name);
    NothingLeft(members, before);
    NothingLeft(before, members);
  }

  lemma NothingLeft(a: set<string>, b: set<string>)
    ensures a - b == {} <==> a <= b
  {
    if a - b == {} {
      forall x | x in a
        ensures x in b
      {
        assert x !in a - b;
      }
    }
  }

  /** An accepted update whose first two writes succeed crashes before it removes anything if and
      only if the role contains one of Keycloak's own. */
  lemma CrashesExactly(realm: Realm, builtIn: set<string>, name: string, members: set<string>, d: Description, faults: Faults)
    requires Closed(realm)
    ensures UpdateOutcome(realm, builtIn, name, members, d, faults).Crashed?
            <==> && IsAccepted(realm, builtIn, name, members, d)
                 && !(d.changed && faults.describe) && !(faults.add && members - Inner(realm, name) != {})
                 && exists m :: m in Inner(realm, name) && IsTechnical(m)
  {
    hide GuardPasses, IsTechnical;
    forall m | m in Inner(realm, name)
      ensures m in realm && m != ""
    {
      assert (name, m) in EdgesOf(realm);
      InnerNamesAre(realm[name], m);
    }
    hide InnerNames, EdgesOf;
    var toRemove := Inner(realm, name) - members;
    if IsAccepted(realm, builtIn, name, members, d) {
      if m :| m in Inner(realm, name) && IsTechnical(m) {
        assert m !in Known(realm) && m in toRemove;
      }
      if m :| m in toRemove && m !in Known(realm) {
        assert m in Inner(realm, name) && IsTechnical(m);
      }
    }
  }

  lemma NothingBelow(realm: Realm, start: string, target: string)
    requires Closed(realm) && start in realm && InnerNames(realm[start]) == {} && start != target
    ensures !WalkFrom(realm, start, target)
  {
    var (queue, seen) := Visit(realm[start], [], {start});
    assert [start][..0] == [];
    assert !Walk(realm, [], {start}, target);
  }

  /** A role that contains `offline_access` is to contain `reader` instead: it contains both then. */
  lemma HolderOfOwnRoleCrashes()
    ensures var own, reader := Member("offline_access", false), Member("reader", false);
            var realm := map["app" := [own], "reader" := [], "offline_access" := []];
            var after := map["app" := [own, reader], "reader" := [], "offline_access" := []];
            && Closed(realm)
            && UpdateOutcome(realm, {}, "app", {"reader"}, Description(true, false), Faults(false, false, false)) == Crashed
            && Takes(Update("app", {"reader"}, 1), realm, after)
  {
    hide WalkFrom, IsTechnical;
    var own, reader := Member("offline_access", false), Member("reader", false);
    var realm := map["app" := [own], "reader" := [], "offline_access" := []];
    var after := map["app" := [own, reader], "reader" := [], "offline_access" := []];
    NothingInside();
    assert [own][1..] == [] && InnerNames([own]) == {"offline_access"};
    assert [own, reader][1..] == [reader] && InnerNames([reader]) == {"reader"};
    assert InnerNames([own, reader]) == {"offline_access", "reader"};
    hide InnerNames;
    assert EdgesOf(realm) == {("app", "offline_access")};
    assert EdgesOf(after) == {("app", "offline_access"), ("app", "reader")};
    NothingBelow(realm, "reader", "app");
    ThreeNames();
    assert Known(realm) == {"app", "reader"};
    assert IsAccepted(realm, {}, "app", {"reader"}, Description(true, false));
    assert {"reader"} - {"offline_access"} == {"reader"} && {"offline_access"} - {"reader"} == {"offline_access"};
    assert !({"offline_access"} <= Known(realm)) by {
      assert "offline_access" !in Known(realm);
    }
    assert Closed(realm);
    assert UpdateOutcome(realm, {}, "app", {"reader"}, Description(true, false), Faults(false, false, false)) == Crashed;
    assert Fan("app", {"reader"}) == {("app", "reader")};
    assert Takes(Update("app", {"reader"}, 1), realm, after);
  }

  lemma ThreeNames()
    ensures IsTechnical("offline_access") && !IsTechnical("app") && !IsTechnical("reader")
    ensures "app" != "reader" && "app" != "offline_access" && "reader" != "offline_access"
  {
    assert |"app"| == 3 && |"reader"| == 6 && |"offline_access"| == 14;
    assert "reader"[0] == 'r' && "app"[0] == 'a';
  }

  // ---------------------------------------------------------------- what every step keeps

  lemma NewRoleIsNotReached(realm: Realm, name: string, m: string)
    requires Closed(realm) && name !in realm && m in realm
    ensures !Reaches(EdgesOf(realm), m, name)
  {
    if Reaches(EdgesOf(realm), m, name) {
      var path :| IsPathFrom(EdgesOf(realm), path, m, name);
      ClosedHoldsReached(EdgesOf(realm), realm.Keys, path);
    }
  }

  lemma StepKeepsClosed(op: Op, before: Realm, after: Realm)
    requires Closed(before) && Takes(op, before, after)
    ensures Closed(after)
  {
    hide InnerNames, GuardPasses;
    forall a, b | (a, b) in EdgesOf(after)
      ensures b in after
    {
      if (a, b) in EdgesOf(before) {
        assert b in before;
      }
    }
  }

  /** The start of every walk of an update. */
  ghost predicate WalksAreExact(op: Op, realm: Realm) {
    op.Update? ==> forall m :: m in op.members ==> |Below(realm, m)| <= MAX_WALK
  }

  /** No step makes a cycle, whether it is finished or stopped between two of its calls. */
  lemma StepKeepsAcyclic(op: Op, before: Realm, after: Realm)
    requires Closed(before) && Acyclic(EdgesOf(before)) && Takes(op, before, after)
    requires WalksAreExact(op, before)
    ensures Acyclic(EdgesOf(after))
  {
    hide InnerNames, Reaches, WalkFrom, Closed, Acyclic;
    match op
    case Nothing =>
    case Create(name, members, done) =>
      forall m | m in members
        ensures !Reaches(EdgesOf(before), m, name)
      {
        NewRoleIsNotReached(before, name, m);
      }
      FanAcyclic(EdgesOf(before), name, members);
      assert EdgesOf(before) + {} == EdgesOf(before);
    case Update(name, members, done) =>
      var toAdd := members - Inner(before, name);
      forall m | m in toAdd
        ensures !Reaches(EdgesOf(before), m, name)
      {
        WalkIsReachability(before, m, name);
      }
      FanAcyclic(EdgesOf(before), name, toAdd);
      SubgraphAcyclic(EdgesOf(before) + Fan(name, toAdd), EdgesOf(after));
    case Delete(name) =>
      SubgraphAcyclic(EdgesOf(before), EdgesOf(after));
  }

  /** The guard is not too strict either: an update it refuses would have made a cycle. */
  lemma RefusedUpdateWouldLoop(realm: Realm, name: string, toAdd: set<string>)
    requires Closed(realm) && Acyclic(EdgesOf(realm)) && name in realm && toAdd <= realm.Keys
    ensures !GuardPasses(realm, name, toAdd) ==> !Acyclic(EdgesOf(realm) + Fan(name, toAdd))
  {
    if !GuardPasses(realm, name, toAdd) {
      var m :| m in toAdd && WalkFrom(realm, m, name);
      WalkIsReachability(realm, m, name);
      FanAcyclic(EdgesOf(realm), name, toAdd);
    }
  }

  ghost predicate IsRun(realms: seq<Realm>, ops: seq<Op>) {
    && |realms| == |ops| + 1
    && forall i :: 0 <= i < |ops| ==> Takes(ops[i], realms[i], realms[i + 1]) && |realms[i]| <= 500
  }

  lemma SmallRealmWalksAreExact(op: Op, realm: Realm)
    requires |realm| <= MAX_WALK
    ensures WalksAreExact(op, realm)
  {
    if op.Update? {
      forall m | m in op.members
        ensures |Below(realm, m)| <= MAX_WALK
      {
        SubsetSize(Below(realm, m), realm.Keys);
      }
    }
  }

  /** Over any run of requests against a realm of at most 500 roles, finished or stopped
      half-way, a realm without a cycle never gets one. */
  lemma {:induction false} RunStaysAcyclic(realms: seq<Realm>, ops: seq<Op>, n: nat)
    requires IsRun(realms, ops) && n <= |ops|
    requires Closed(realms[0]) && Acyclic(EdgesOf(realms[0]))
    ensures Closed(realms[n]) && Acyclic(EdgesOf(realms[n]))
  {
    hide Closed, Acyclic, Takes;
    if n > 0 {
      RunStaysAcyclic(realms, ops, n - 1);
      SmallRealmWalksAreExact(ops[n - 1], realms[n - 1]);
      StepKeepsClosed(ops[n - 1], realms[n - 1], realms[n]);
      StepKeepsAcyclic(ops[n - 1], realms[n - 1], realms[n]);
    }
  }

  /** The bound on the realm is needed: in the crowd of 501 roles, which has no cycle, the guard
      lets the last role take in the first one, and that closes a loop. */
  lemma LargeRealmCanLoop()
    ensures var first, last := Name(0), Name(MAX_WALK);
            && Acyclic(EdgesOf(Crowd()))
            && GuardPasses(Crowd(), last, {first})
            && !Acyclic(EdgesOf(Crowd()) + Fan(last, {first}))
  {
    hide InnerNames, WalkFrom, Acyclic, EdgesOf, Reaches, Crowd, Closed, Name;
    var first, last := Name(0), Name(MAX_WALK);
    CrowdIsMissed();
    CrowdReachesLast();
    CrowdGrows();
    GrowingIsAcyclic(EdgesOf(Crowd()));
    FanAcyclic(EdgesOf(Crowd()), last, {first});
  }

  lemma CrowdGrows()
    ensures forall a, b :: (a, b) in EdgesOf(Crowd()) ==> |a| < |b|
  {
    forall a, b | (a, b) in EdgesOf(Crowd())
      ensures |a| < |b|
    {
      var i: nat :| i < MAX_WALK + 1 && a == Name(i);
      CrowdInner(i);
    }
  }

  // ---------------------------------------------------------------- Keycloak's lists

  lemma {:induction false} InnerNamesAppend(a: seq<Member>, b: seq<Member>)
    ensures InnerNames(a + b) == InnerNames(a) + InnerNames(b)
  {
    if a == [] {
      assert a + b == b;
    } else {
      InnerNamesAppend(a[1..], b);
      assert (a + b)[1..] == a[1..] + b;
    }
  }

  /** What is left of a role's members when the realm roles `names` are taken out. */
  function Without(members: seq<Member>, names: set<string>): (r: seq<Member>)
    ensures InnerNames(r) == InnerNames(members) - names
  {
    if members == [] then []
    else if IsInner(members[0]) && members[0].name in names then Without(members[1..], names)
    else
      InnerNamesAppend([members[0]], Without(members[1..], names));
      [members[0]] + Without(members[1..], names)
  }

  /** What is listed of a role but no realm role. */
  function Outside(members: seq<Member>): seq<Member> {
    if members == [] then [] else IfOutside(members[0]) + Outside(members[1..])
  }

  function IfOutside(m: Member): seq<Member> {
    if m.clientRole || m.name == "" then [m] else []
  }

  lemma {:induction false} OutsideAre(members: seq<Member>, m: Member)
    ensures multiset(Outside(members))[m] == if m.clientRole || m.name == "" then multiset(members)[m] else 0
  {
    if members != [] {
      OutsideAre(members[1..], m);
      assert members == [members[0]] + members[1..];
    }
  }

  lemma {:induction false} OutsideAppend(a: seq<Member>, b: seq<Member>)
    ensures Outside(a + b) == Outside(a) + Outside(b)
  {
    hide IfOutside;
    if a == [] {
      assert a + b == b;
    } else {
      OutsideAppend(a[1..], b);
      assert (a + b)[1..] == a[1..] + b;
    }
  }

  lemma {:induction false} WithoutKeepsOutside(members: seq<Member>, names: set<string>)
    ensures Outside(Without(members, names)) == Outside(members)
  {
    if members != [] {
      WithoutKeepsOutside(members[1..], names);
      OutsideAppend([members[0]], Without(members[1..], names));
      assert [members[0]][1..] == [];
    }
  }

  /** The roles of clients that realm roles contain are not touched, and a new role has none. */
  ghost predicate KeepsOutside(before: Realm, after: Realm) {
    forall n :: n in after ==> Outside(after[n]) == if n in before then Outside(before[n]) else []
  }

  lemma NewKeepsOutside(realm: Realm, name: string)
    requires name !in realm
    ensures KeepsOutside(realm, realm[name := []])
  {
    hide Outside;
    assert Outside([]) == [] by {
      OutsideOfNone();
    }
  }

  lemma OutsideOfNone()
    ensures Outside([]) == []
  {
  }

  lemma OneKeepsOutside(realm: Realm, name: string, members: seq<Member>)
    requires name in realm && Outside(members) == Outside(realm[name])
    ensures KeepsOutside(realm, realm[name := members])
  {
    hide Outside;
  }

  lemma KeepsOutsideTwice(a: Realm, b: Realm, c: Realm)
    requires KeepsOutside(a, b) && KeepsOutside(b, c) && c.Keys == b.Keys
    ensures KeepsOutside(a, c)
  {
    hide Outside;
  }

  lemma WithoutTakesFan(realm: Realm, name: string, names: set<string>)
    requires name in realm
    ensures EdgesOf(realm[name := Without(realm[name], names)]) == EdgesOf(realm) - Fan(name, names)
  {
    hide InnerNames, Without;
  }

  lemma SameKeepsOutside(a: Realm)
    ensures KeepsOutside(a, a)
  {
    hide Outside;
  }

  /** The realm without a role, which is taken out of every other one as well. */
  function WithoutRole(realm: Realm, name: string): Realm {
    map role | role in realm && role != name :: Without(realm[role], {name})
  }

  lemma DeletedKeepsOutside(realm: Realm, name: string)
    ensures KeepsOutside(realm, WithoutRole(realm, name))
  {
    hide Outside, Without;
    forall role | role in WithoutRole(realm, name)
      ensures Outside(WithoutRole(realm, name)[role]) == Outside(realm[role])
    {
      WithoutKeepsOutside(realm[role], {name});
    }
  }

  lemma DeletedIsGone(realm: Realm, name: string)
    ensures Takes(Delete(name), realm, WithoutRole(realm, name))
  {
  }

  /** The realm roles of a Keycloak server, with the calls the service makes. */
  class RealmRoles {
    var realm: Realm
    const builtIn: set<string>

    constructor (realm: Realm, builtIn: set<string>)
      ensures this.realm == realm && this.builtIn == builtIn
    {
      this.realm := realm;
      this.builtIn := builtIn;
    }

    /** `POST /roles/{name}/composites`: the order they are stored in is Keycloak's. */
    method AddComposites(name: string, names: set<string>)
      requires name in realm && "" !in names
      modifies this`realm
      ensures realm.Keys == old(realm.Keys) && KeepsOutside(old(realm), realm)
      ensures EdgesOf(realm) == EdgesOf(old(realm)) + Fan(name, names)
    {
      hide KeepsOutside;
      var left, added := names, [];
      OutsideOfNone();
      while left != {}
        invariant realm == old(realm)
        invariant left <= names && InnerNames(added) == names - left && Outside(added) == []
      {
        var n :| n in left;
        InnerNamesAppend(added, [Member(n, false)]);
        OutsideAppend(added, [Member(n, false)]);
        left, added := left - {n}, added + [Member(n, false)];
      }
      InnerNamesAppend(realm[name], added);
      OutsideAppend(realm[name], added);
      assert Outside(realm[name]) + [] == Outside(realm[name]);
      OneKeepsOutside(realm, name, realm[name] + added);
      realm := realm[name := realm[name] + added];
    }

    /** `DELETE /roles/{name}/composites`. */
    method RemoveComposites(name: string, names: set<string>)
      requires name in realm
      modifies this`realm
      ensures realm.Keys == old(realm.Keys) && KeepsOutside(old(realm), realm)
      ensures EdgesOf(realm) == EdgesOf(old(realm)) - Fan(name, names)
    {
      WithoutKeepsOutside(realm[name], names);
      OneKeepsOutside(realm, name, Without(realm[name], names));
      WithoutTakesFan(realm, name, names);
      hide Outside, KeepsOutside, Without, EdgesOf, Fan;
      realm := realm[name := Without(realm[name], names)];
    }

    /** `_reaches`: whether `target` is `start` or lies somewhere below it. */
    method ReachesRole(start: string, target: string) returns (found: bool)
      requires Closed(realm) && start in realm
      ensures found == WalkFrom(realm, start, target)
    {
      hide EdgesOf, InnerNames, Closed;
      var seen, queue := {start}, [start];
      while queue != [] && |seen| < MAX_WALK
        invariant seen <= realm.Keys && forall n :: n in queue ==> n in seen
        invariant Walk(realm, queue, seen, target) == WalkFrom(realm, start, target)
        decreases |realm.Keys - seen| + |queue|
      {
        var current := queue[|queue| - 1];
        ghost var queue0, seen0 := queue, seen;
        queue := queue[..|queue| - 1];
        if current == target {
          return true;
        }
        assert current in queue0;
        var members := realm[current];
        ghost var visited := Visit(members, queue, seen);
        var i := 0;
        while i < |members|
          invariant i <= |members|
          invariant Visit(members[i..], queue, seen) == visited
        {
          var n := members[i].name;
          if IsInner(members[i]) && n !in seen {
            seen, queue := seen + {n}, queue + [n];
          }
          assert members[i..][1..] == members[i + 1..];
          i := i + 1;
        }
        assert (queue, seen) == visited;
        ExpansionStaysInRealm(realm, current, seen0);
        forall n | n in queue
          ensures n in seen
        {
          VisitQueues(members, queue0[..|queue0| - 1], seen0, n);
        }
        assert |realm.Keys - seen| + |seen| == |realm.Keys - seen0| + |seen0| by {
          assert realm.Keys - seen + seen == realm.Keys == realm.Keys - seen0 + seen0;
        }
      }
      found := target in seen;
    }

    /** `create`: the role first, then its members in a second call. */
    method CreateRole(name: string, members: set<string>, acceptable: bool, createFails: bool, addFails: bool)
      returns (outcome: Outcome, ghost op: Op)
      requires Closed(realm)
      modifies this`realm
      ensures Takes(op, old(realm), realm) && KeepsOutside(old(realm), realm)
      ensures op != Nothing ==> op == Create(name, members, if outcome.Failed? then 1 else 2)
      ensures outcome.Created? ==> op != Nothing && Inner(realm, name) == members
      ensures outcome == (
        if !ValidName(name) || IsTechnical(name) || !acceptable then Refused
        else if name in old(realm) then Conflict
        else if !(members <= Known(old(realm))) then Refused
        else if createFails || (addFails && members != {}) then Failed
        else Created)
    {
      hide InnerNames, KeepsOutside, Outside, IsTechnical;
      op := Nothing;
      SameKeepsOutside(realm);
      if !ValidName(name) || IsTechnical(name) || !acceptable {
        return Refused, op;
      }
      if name in Known(realm) {
        return Conflict, op;
      }
      if !(members <= Known(realm)) {
        return Refused, op;
      }
      if createFails {
        return Failed, op;
      }
      NothingInside();
      assert EdgesOf(realm[name := []]) == EdgesOf(realm);
      NewKeepsOutside(realm, name);
      realm := realm[name := []];
      ghost var created := realm;
      if members != {} {
        if addFails {
          return Failed, Create(name, members, 1);
        }
        AddComposites(name, members);
        KeepsOutsideTwice(old(realm), created, realm);
      }
      InnerIsFan(realm, name);
      return Created, Create(name, members, 2);
    }

    /** The guard of `update`: whether a member to add already leads back to the role. */
    method AnyLeadsBack(name: string, toAdd: set<string>) returns (loops: bool)
      requires Closed(realm) && toAdd <= realm.Keys
      ensures loops == !GuardPasses(realm, name, toAdd)
    {
      var left := toAdd;
      while left != {}
        invariant left <= toAdd
        invariant forall m :: m in toAdd - left ==> !WalkFrom(realm, m, name)
      {
        var m :| m in left;
        var found := ReachesRole(m, name);
        if found {
          return true;
        }
        left := left - {m};
      }
      loops := false;
    }

    /** `update`: set the description of a role and the realm roles it contains. */
    method UpdateRole(name: string, members: set<string>, d: Description, faults: Faults)
      returns (outcome: Outcome, ghost op: Op)
      requires Closed(realm)
      modifies this`realm
      ensures Takes(op, old(realm), realm) && KeepsOutside(old(realm), realm)
      ensures op != Nothing ==> op == Update(name, members, if outcome.Changed? then 2 else 1)
      ensures op == Nothing ==> !outcome.Changed? && !outcome.Crashed?
      ensures outcome.Changed? ==> Inner(realm, name) == members
      ensures outcome == UpdateOutcome(old(realm), builtIn, name, members, d, faults)
    {
      hide InnerNames, Closed, EdgesOf, Fan, GuardPasses, KeepsOutside;
      op := Nothing;
      SameKeepsOutside(realm);
      if IsTechnical(name) || name in builtIn || !d.acceptable {
        return Refused, op;
      }
      var known := Known(realm);
      if name !in known {
        return NotFound, op;
      }
      if !(members <= known) {
        return Refused, op;
      }
      var current := Inner(realm, name);
      var toAdd, toRemove := members - current, current - members;
      var loops := AnyLeadsBack(name, toAdd);
      if loops {
        return Refused, op;
      }
      if d.changed && faults.describe {
        return Failed, op;
      }
      if toAdd != {} {
        if faults.add {
          return Failed, op;
        }
        AddComposites(name, toAdd);
      }
      ghost var added := realm;
      op := Update(name, members, 1);
      NoFan(name);
      assert EdgesOf(realm) == EdgesOf(old(realm)) + Fan(name, toAdd);
      if toRemove != {} {
        if !(toRemove <= known) {
          return Crashed, op;
        }
        if faults.remove {
          return Failed, op;
        }
        RemoveComposites(name, toRemove);
        KeepsOutsideTwice(old(realm), added, realm);
      }
      UpdateLands(old(realm), realm, name, members);
      return Changed(toAdd, toRemove), Update(name, members, 2);
    }

    /** `delete`: Keycloak takes the role out of every role that contained it. */
    method DeleteRole(name: string, deleteFails: bool) returns (outcome: Outcome, ghost op: Op)
      modifies this`realm
      ensures Takes(op, old(realm), realm) && KeepsOutside(old(realm), realm)
      ensures outcome.Deleted? <==> op == Delete(name)
      ensures outcome == (
        if IsTechnical(name) || name in builtIn then Refused
        else if name !in Known(old(realm)) then NotFound
        else if deleteFails then Failed
        else Deleted)
    {
      hide KeepsOutside, WithoutRole;
      op := Nothing;
      SameKeepsOutside(realm);
      if IsTechnical(name) || name in builtIn {
        return Refused, op;
      }
      if name !in Known(realm) {
        return NotFound, op;
      }
      if deleteFails {
        return Failed, op;
      }
      DeletedKeepsOutside(realm, name);
      DeletedIsGone(realm, name);
      realm := WithoutRole(realm, name);
      return Deleted, Delete(name);
    }
  }

  lemma UpdateLands(before: Realm, after: Realm, name: string, members: set<string>)
    requires name in before && name in after
    requires EdgesOf(after) == EdgesOf(before) + Fan(name, members - Inner(before, name))
                               - Fan(name, Inner(before, name) - members)
    ensures Inner(after, name) == members
  {
    InnerIsFan(before, name);
    InnerIsFan(after, name);
  }

  lemma NoFan(name: string)
    ensures Fan(name, {}) == {}
  {
  }

  lemma NothingInside()
    ensures InnerNames([]) == {}
  {
  }

  lemma InnerIsFan(realm: Realm, name: string)
    ensures forall n :: n in Inner(realm, name) <==> (name, n) in EdgesOf(realm)
  {
  }
}
