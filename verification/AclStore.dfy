/** Role grants of collections (`rag_collections.py`). */
module AclStore {
  import opened Splitting
  import opened Text
  import opened Wrappers

  // Grants are points of one ACL collection in Qdrant. Setting the roles of a collection reads
  // all points, compares, and writes only what differs: an existing point keeps its id and its
  // document policy.

  // ---------------------------------------------------------------- points

  /** A point id: the UUID this program derives from a name, or one written by another tool.
      The derivation is taken to be injective. */
  datatype Id = Uuid5(name: string) | Foreign(text: string)

  function AclPointId(role: string, collection: string): Id {
    Uuid5(role + "|" + collection)
  }

  /** What a point holds; one that is no readable grant is skipped by every reader. */
  datatype Payload =
    | Grant(role: string, collection: string, access: string, policy: string)
    | Unreadable

  type Acl = map<Id, Payload>

  const GLOBAL_COLLECTION: string := "*"

  predicate IsReadable(p: Payload) {
    p.Grant? && p.role != "" && p.collection != "" && p.access in {"r", "rw", "m"}
  }

  predicate IsGlobal(p: Payload, role: string) {
    IsReadable(p) && p.access == "m" && p.role == role
  }

  /** A grant of one collection, whoever holds it. */
  predicate IsOf(p: Payload, name: string) {
    IsReadable(p) && p.access != "m" && p.collection == name
  }

  /** ... and one the role editor manages: any role's but the operator's. */
  predicate IsManaged(p: Payload, name: string, operator: string) {
    IsOf(p, name) && p.role != operator
  }

  /** Two ids are the same only for the same role and collection, roles having no bar. */
  lemma AclPointIdInjective(role1: string, collection1: string, role2: string, collection2: string)
    requires '|' !in role1 && '|' !in role2
    ensures AclPointId(role1, collection1) == AclPointId(role2, collection2) ==>
              role1 == role2 && collection1 == collection2
  {
    if AclPointId(role1, collection1) == AclPointId(role2, collection2) {
      PartitionUnique(role1 + "|" + collection1, '|', role1, collection1);
      PartitionUnique(role2 + "|" + collection2, '|', role2, collection2);
    }
  }

  // ---------------------------------------------------------------- the requested grants

  datatype RoleGrant = RoleGrant(role: string, access: string)

  datatype InvalidInput = EmptyRole | LongRole | BadRole | BadAccess | OperatorListed | ListedTwice

  /** `validate_role`; which characters are control characters is Unicode's to say. */
  function ValidateRole(role: string, isControl: char -> bool): Result<string, InvalidInput> {
    var value := Strip(role);
    if value == "" then Err(EmptyRole)
    else if |value| > 255 then Err(LongRole)
    else if '|' in value || exists i :: 0 <= i < |value| && isControl(value[i]) then Err(BadRole)
    else Ok(value)
  }

  function ValidateGrant(g: RoleGrant, operator: string, isControl: char -> bool): Result<RoleGrant, InvalidInput> {
    var role := ValidateRole(g.role, isControl);
    if role.Err? then Err(role.error)
    else if g.access != "r" && g.access != "rw" then Err(BadAccess)
    else if role.value == operator then Err(OperatorListed)
    else Ok(RoleGrant(role.value, g.access))
  }

  /** A complete list of roles: each once, none of them the operator, all of them storable. */
  ghost predicate IsRequest(grants: seq<RoleGrant>, operator: string) {
    && (forall i :: 0 <= i < |grants| ==>
          (grants[i].role != "" && '|' !in grants[i].role && grants[i].role != operator && grants[i].access in {"r", "rw"}))
    && (forall i, j :: 0 <= i < j < |grants| ==> grants[i].role != grants[j].role)
  }

  ghost predicate HasRole(grants: seq<RoleGrant>, role: string) {
    exists k :: 0 <= k < |grants| && grants[k].role == role
  }

  ghost predicate InRoleOrder(grants: seq<RoleGrant>) {
    forall i, j :: 0 <= i < j < |grants| ==> Less(grants[i].role, grants[j].role)
  }

  /** Where a grant goes in a list in role order. */
  method InsertGrant(grants: seq<RoleGrant>, g: RoleGrant) returns (r: seq<RoleGrant>)
    requires InRoleOrder(grants) && !HasRole(grants, g.role)
    ensures InRoleOrder(r) && multiset(r) == multiset(grants) + multiset{g}
  {
    var i := 0;
    while i < |grants| && Less(grants[i].role, g.role)
      invariant i <= |grants| && forall k :: 0 <= k < i ==> Less(grants[k].role, g.role)
    {
      i := i + 1;
    }
    InsertedInOrder(grants, g, i);
    hide InRoleOrder, Less, HasRole;
    r := grants[..i] + [g] + grants[i..];
    assert grants == grants[..i] + grants[i..];
  }

  lemma InsertedInOrder(grants: seq<RoleGrant>, g: RoleGrant, i: nat)
    requires InRoleOrder(grants) && !HasRole(grants, g.role) && i <= |grants|
    requires forall k :: 0 <= k < i ==> Less(grants[k].role, g.role)
    requires i < |grants| ==> !Less(grants[i].role, g.role)
    ensures InRoleOrder(grants[..i] + [g] + grants[i..])
  {
    hide Less;
    forall k | i <= k < |grants|
      ensures Less(g.role, grants[k].role)
    {
      LessIsTotal(g.role, grants[i].role);
      if k > i {
        LessIsTransitive(g.role, grants[i].role, grants[k].role);
      }
    }
  }

  ghost predicate IsStorable(role: string, isControl: char -> bool) {
    && role != "" && |role| <= 255 && '|' !in role
    && forall i :: 0 <= i < |role| ==> !isControl(role[i])
  }

  /** What a request may hold: a role that can be stored and is not the operator, to read or to
      read and write. */
  ghost predicate IsAcceptable(g: RoleGrant, operator: string, isControl: char -> bool) {
    IsStorable(Strip(g.role), isControl) && Strip(g.role) != operator && g.access in {"r", "rw"}
  }

  ghost predicate RolesDiffer(grants: seq<RoleGrant>) {
    forall i, j :: 0 <= i < j < |grants| ==> Strip(grants[i].role) != Strip(grants[j].role)
  }

  /** What is wrong with a grant, the first reason that applies; `before` are the grants before it. */
  ghost predicate IsWrong(g: RoleGrant, before: seq<RoleGrant>, operator: string, isControl: char -> bool, e: InvalidInput) {
    var role := Strip(g.role);
    match e
    case EmptyRole => role == ""
    case LongRole => |role| > 255
    case BadRole => 0 < |role| <= 255 && !IsStorable(role, isControl)
    case BadAccess => IsStorable(role, isControl) && g.access !in {"r", "rw"}
    case OperatorListed => IsStorable(role, isControl) && g.access in {"r", "rw"} && role == operator
    case ListedTwice =>
      IsAcceptable(g, operator, isControl) && exists j :: 0 <= j < |before| && Strip(before[j].role) == role
  }

  /** The grants with the spaces around their roles taken off. */
  function Trimmed(grants: seq<RoleGrant>): seq<RoleGrant> {
    seq(|grants|, i requires 0 <= i < |grants| => RoleGrant(Strip(grants[i].role), grants[i].access))
  }

  lemma ValidIsAcceptable(g: RoleGrant, operator: string, isControl: char -> bool)
    ensures ValidateGrant(g, operator, isControl).Ok? <==> IsAcceptable(g, operator, isControl)
    ensures ValidateGrant(g, operator, isControl).Ok? ==>
              ValidateGrant(g, operator, isControl).value == RoleGrant(Strip(g.role), g.access)
    ensures ValidateGrant(g, operator, isControl).Err? ==>
              forall before :: IsWrong(g, before, operator, isControl, ValidateGrant(g, operator, isControl).error)
  {
    hide Strip;
  }

  function RolesOf(grants: seq<RoleGrant>): set<string> {
    set g | g in grants :: Strip(g.role)
  }

  /** `normalise_grants`. */
  method NormaliseGrants(grants: seq<RoleGrant>, operator: string, isControl: char -> bool)
    returns (r: Result<seq<RoleGrant>, InvalidInput>)
    ensures r.Ok? <==> (forall i :: 0 <= i < |grants| ==> IsAcceptable(grants[i], operator, isControl)) && RolesDiffer(grants)
    ensures r.Ok? ==> IsRequest(r.value, operator) && InRoleOrder(r.value) && multiset(r.value) == multiset(Trimmed(grants))
    ensures r.Err? ==>
              exists i :: && 0 <= i < |grants| && IsWrong(grants[i], grants[..i], operator, isControl, r.error)
                          && RolesDiffer(grants[..i])
                          && forall j :: 0 <= j < i ==> IsAcceptable(grants[j], operator, isControl)
  {
    hide Strip, ValidateGrant, InRoleOrder, IsAcceptable, IsWrong, IsRequest, RolesDiffer, HasRole, RolesOf, Trimmed;
    var seen: set<string> := {};
    var result: seq<RoleGrant> := [];
    var i := 0;
    NothingRequested(operator);
    assert grants[..0] == [];
    while i < |grants|
      invariant i <= |grants|
      invariant InRoleOrder(result) && IsRequest(result, operator)
      invariant multiset(result) == multiset(Trimmed(grants[..i]))
      invariant RolesDiffer(grants[..i]) && forall j :: 0 <= j < i ==> IsAcceptable(grants[j], operator, isControl)
      invariant seen == RolesOf(grants[..i]) && forall role :: HasRole(result, role) <==> role in seen
    {
      var valid := ValidateGrant(grants[i], operator, isControl);
      ValidIsAcceptable(grants[i], operator, isControl);
      if valid.Err? {
        assert IsWrong(grants[i], grants[..i], operator, isControl, valid.error);
        return Err(valid.error);
      }
      var g := valid.value;
      OneMoreGrant(grants, i);
      if g.role in seen {
        TwiceIsWrong(grants, i, operator, isControl);
        return Err(ListedTwice);
      }
      AcceptableIsRequest(grants[i], operator, isControl);
      ghost var before := result;
      result := InsertGrant(result, g);
      RequestGrows(before, g, result, operator);
      seen := seen + {g.role};
      i := i + 1;
    }
    assert grants[..|grants|] == grants;
    return Ok(result);
  }

  lemma NothingRequested(operator: string)
    ensures InRoleOrder([]) && IsRequest([], operator) && RolesDiffer([]) && RolesOf([]) == {}
    ensures Trimmed([]) == [] && forall role :: !HasRole([], role)
  {
  }

  lemma OneMoreGrant(grants: seq<RoleGrant>, i: nat)
    requires i < |grants|
    ensures Trimmed(grants[..i + 1]) == Trimmed(grants[..i]) + [RoleGrant(Strip(grants[i].role), grants[i].access)]
    ensures RolesOf(grants[..i + 1]) == RolesOf(grants[..i]) + {Strip(grants[i].role)}
    ensures RolesDiffer(grants[..i]) && Strip(grants[i].role) !in RolesOf(grants[..i]) ==> RolesDiffer(grants[..i + 1])
  {
    hide Strip;
    var longer, shorter := grants[..i + 1], grants[..i];
    assert longer == shorter + [grants[i]];
    assert forall j :: 0 <= j < i ==> longer[j] == shorter[j] && shorter[j] in shorter;
  }

  lemma TwiceIsWrong(grants: seq<RoleGrant>, i: nat, operator: string, isControl: char -> bool)
    requires i < |grants| && Strip(grants[i].role) in RolesOf(grants[..i])
    requires IsAcceptable(grants[i], operator, isControl)
    ensures IsWrong(grants[i], grants[..i], operator, isControl, ListedTwice) && !RolesDiffer(grants)
  {
    hide Strip, IsAcceptable;
    var k :| 0 <= k < i && Strip(grants[..i][k].role) == Strip(grants[i].role);
    assert grants[..i][k] == grants[k];
  }

  lemma AcceptableIsRequest(g: RoleGrant, operator: string, isControl: char -> bool)
    requires IsAcceptable(g, operator, isControl)
    ensures var role := Strip(g.role); role != "" && '|' !in role && role != operator && g.access in {"r", "rw"}
  {
    hide Strip;
  }

  lemma RequestGrows(before: seq<RoleGrant>, g: RoleGrant, after: seq<RoleGrant>, operator: string)
    requires IsRequest(before, operator) && InRoleOrder(after)
    requires multiset(after) == multiset(before) + multiset{g}
    requires g.role != "" && '|' !in g.role && g.role != operator && g.access in {"r", "rw"}
    ensures IsRequest(after, operator)
    ensures forall role :: HasRole(after, role) <==> role == g.role || HasRole(before, role)
  {
    forall i | 0 <= i < |after|
      ensures after[i] in before || after[i] == g
    {
      assert after[i] in multiset(after);
    }
    forall x | x in before || x == g
      ensures x in after
    {
      assert x in multiset(before) + multiset{g};
    }
    forall i, j | 0 <= i < j < |after|
      ensures after[i].role != after[j].role
    {
      LessIsTotal(after[i].role, after[j].role);
    }
    forall role | HasRole(before, role)
      ensures HasRole(after, role)
    {
      var k :| 0 <= k < |before| && before[k].role == role;
      assert before[k] in after;
    }
    assert g in after;
  }

  // ---------------------------------------------------------------- the difference

  /** The grant a role holds on the collection now. */
  datatype Entry = Entry(id: Id, access: string, policy: string)

  /** `current`: an entry for every role with a managed grant. Of several points of one role
      any may be the one that is remembered. */
  ghost predicate IsCurrent(current: map<string, Entry>, acl: Acl, name: string, operator: string) {
    && (forall role :: role in current ==>
          current[role].id in acl && IsManaged(acl[current[role].id], name, operator)
          && acl[current[role].id] == Grant(role, name, current[role].access, current[role].policy))
    && (forall id :: id in acl && IsManaged(acl[id], name, operator) ==> acl[id].role in current)
  }

  predicate NeedsWrite(g: RoleGrant, current: map<string, Entry>) {
    g.role !in current || current[g.role].access != g.access
  }

  /** An existing point keeps its id and its policy. */
  function TargetId(g: RoleGrant, name: string, current: map<string, Entry>): Id {
    if g.role in current then current[g.role].id else AclPointId(g.role, name)
  }

  function Target(g: RoleGrant, name: string, current: map<string, Entry>): Payload {
    Grant(g.role, name, g.access, if g.role in current then current[g.role].policy else "null")
  }

  function Upserts(desired: seq<RoleGrant>, name: string, current: map<string, Entry>): Acl {
    if desired == [] then map[]
    else
      var g, before := Last(desired), Upserts(Init(desired), name, current);
      if NeedsWrite(g, current) then before[TargetId(g, name, current) := Target(g, name, current)] else before
  }

  function Stale(desired: seq<RoleGrant>, current: map<string, Entry>): set<Id> {
    set role | role in current && (forall i :: 0 <= i < |desired| ==> desired[i].role != role) :: current[role].id
  }

  /** What `_apply_grants` leaves: first the upserts, then the removals. */
  function Reconciled(acl: Acl, name: string, desired: seq<RoleGrant>, current: map<string, Entry>): Acl {
    (acl + Upserts(desired, name, current)) - Stale(desired, current)
  }

  // ---------------------------------------------------------------- what it should leave

  ghost predicate OnePerRole(acl: Acl, name: string, operator: string) {
    forall i, j ::
      (i in acl && j in acl && IsManaged(acl[i], name, operator) && IsManaged(acl[j], name, operator)
       && acl[i].role == acl[j].role) ==> i == j
  }

  /** No id of a grant still to be written is taken by something else. */
  ghost predicate IdsFree(acl: Acl, name: string, desired: seq<RoleGrant>, current: map<string, Entry>) {
    forall i :: 0 <= i < |desired| && desired[i].role !in current ==> AclPointId(desired[i].role, name) !in acl
  }

  /** The managed grants of the collection are the request: one point for each entry, no other. */
  ghost predicate Lands(acl: Acl, name: string, operator: string, desired: seq<RoleGrant>) {
    OnePerRole(acl, name, operator) && GrantsAre(acl, name, operator, desired)
  }

  /** The managed grants of the collection are the request, however many points they have. */
  ghost predicate GrantsAre(acl: Acl, name: string, operator: string, desired: seq<RoleGrant>) {
    && (forall id :: id in acl && IsManaged(acl[id], name, operator) ==> RoleGrant(acl[id].role, acl[id].access) in desired)
    && (forall g :: g in desired ==> Holds(acl, name, operator, g))
  }

  ghost predicate Holds(acl: Acl, name: string, operator: string, g: RoleGrant) {
    exists id :: id in acl && IsManaged(acl[id], name, operator) && acl[id].role == g.role && acl[id].access == g.access
  }

  /** Every other point -- other collections, global grants, the operator's, unreadable ones --
      is as it was, and none has appeared. */
  ghost predicate Framed(before: Acl, after: Acl, name: string, operator: string) {
    && (forall id :: id in before && !IsManaged(before[id], name, operator) ==> id in after && after[id] == before[id])
    && (forall id :: id in after && !IsManaged(after[id], name, operator) ==> id in before && before[id] == after[id])
  }

  /** A role that had a grant and keeps one keeps its point and its policy. */
  ghost predicate KeepsPoints(before: Acl, after: Acl, name: string, operator: string, desired: seq<RoleGrant>) {
    forall id :: id in before && IsManaged(before[id], name, operator) && HasRole(desired, before[id].role) ==>
      id in after && after[id].Grant? && after[id].role == before[id].role && after[id].policy == before[id].policy
  }

  ghost predicate HasPoint(acl: Acl, name: string, operator: string, role: string) {
    exists id :: id in acl && IsManaged(acl[id], name, operator) && acl[id].role == role
  }

  /** A role that had none gets a point under the id derived from it and the collection, without a
      document policy. */
  ghost predicate AddsPoints(before: Acl, after: Acl, name: string, operator: string, desired: seq<RoleGrant>) {
    forall g :: g in desired && !HasPoint(before, name, operator, g.role) ==>
      var id := Uuid5(g.role + "|" + name); id in after && after[id] == Grant(g.role, name, g.access, "null")
  }

  // ---------------------------------------------------------------- the upserts

  lemma {:induction false} UpsertComesFrom(desired: seq<RoleGrant>, name: string, current: map<string, Entry>, id: Id)
    requires id in Upserts(desired, name, current)
    ensures exists i :: 0 <= i < |desired| && NeedsWrite(desired[i], current) && TargetId(desired[i], name, current) == id
                        && Upserts(desired, name, current)[id] == Target(desired[i], name, current)
  {
    var g, before := Last(desired), Init(desired);
    if NeedsWrite(g, current) && TargetId(g, name, current) == id {
      assert desired[|desired| - 1] == g;
    } else {
      UpsertComesFrom(before, name, current, id);
      var i :| 0 <= i < |before| && NeedsWrite(before[i], current) && TargetId(before[i], name, current) == id
               && Upserts(before, name, current)[id] == Target(before[i], name, current);
      assert desired[i] == before[i];
    }
  }

  /** Different roles have different target ids. */
  ghost predicate TargetsApart(desired: seq<RoleGrant>, name: string, current: map<string, Entry>) {
    forall i, j :: 0 <= i < |desired| && 0 <= j < |desired| && i != j ==>
      TargetId(desired[i], name, current) != TargetId(desired[j], name, current)
  }

  lemma {:induction false} UpsertIsWritten(desired: seq<RoleGrant>, name: string, current: map<string, Entry>, i: nat)
    requires i < |desired| && TargetsApart(desired, name, current) && NeedsWrite(desired[i], current)
    ensures var id := TargetId(desired[i], name, current);
            id in Upserts(desired, name, current) && Upserts(desired, name, current)[id] == Target(desired[i], name, current)
  {
    var before := Init(desired);
    if i < |before| {
      assert forall k :: 0 <= k < |before| ==> before[k] == desired[k];
      UpsertIsWritten(before, name, current, i);
      assert TargetId(desired[i], name, current) != TargetId(Last(desired), name, current);
    }
  }

  lemma FreeIdsAreApart(acl: Acl, name: string, operator: string, desired: seq<RoleGrant>, current: map<string, Entry>)
    requires IsCurrent(current, acl, name, operator) && IsRequest(desired, operator)
    requires IdsFree(acl, name, desired, current)
    ensures TargetsApart(desired, name, current)
  {
    forall i, j | 0 <= i < |desired| && 0 <= j < |desired| && i != j
      ensures TargetId(desired[i], name, current) != TargetId(desired[j], name, current)
    {
      var a, b := desired[i].role, desired[j].role;
      assert a != b by {
        if i < j { assert desired[i].role != desired[j].role; } else { assert desired[j].role != desired[i].role; }
      }
      AclPointIdInjective(a, name, b, name);
    }
  }

  // ---------------------------------------------------------------- the main results

  lemma ReconciledFrames(acl: Acl, name: string, operator: string, desired: seq<RoleGrant>, current: map<string, Entry>)
    requires IsCurrent(current, acl, name, operator) && IsRequest(desired, operator) && name != ""
    requires IdsFree(acl, name, desired, current)
    ensures Framed(acl, Reconciled(acl, name, desired, current), name, operator)
  {
    var after := Reconciled(acl, name, desired, current);
    forall id | id in Upserts(desired, name, current)
      ensures IsManaged(Upserts(desired, name, current)[id], name, operator)
      ensures id in acl ==> IsManaged(acl[id], name, operator)
    {
      UpsertComesFrom(desired, name, current, id);
    }
  }

  /** Where a managed point of the outcome comes from. */
  lemma ReconciledPoint(acl: Acl, name: string, operator: string, desired: seq<RoleGrant>, current: map<string, Entry>, id: Id)
    requires IsCurrent(current, acl, name, operator)
    requires id in Reconciled(acl, name, desired, current)
    ensures var after := Reconciled(acl, name, desired, current);
            || (id in acl && after[id] == acl[id] && id !in Upserts(desired, name, current))
            || exists i :: 0 <= i < |desired| && NeedsWrite(desired[i], current)
                           && TargetId(desired[i], name, current) == id && after[id] == Target(desired[i], name, current)
  {
    if id in Upserts(desired, name, current) {
      UpsertComesFrom(desired, name, current, id);
    }
  }

  /** Every entry of the request has its point in the outcome. */
  lemma RequestIsHeld(acl: Acl, name: string, operator: string, desired: seq<RoleGrant>, current: map<string, Entry>, i: nat)
    requires IsCurrent(current, acl, name, operator) && IsRequest(desired, operator) && name != ""
    requires IdsFree(acl, name, desired, current) && i < |desired|
    ensures var after, id := Reconciled(acl, name, desired, current), TargetId(desired[i], name, current);
            && id in after && after[id].Grant? && after[id].role == desired[i].role && after[id].access == desired[i].access
            && IsManaged(after[id], name, operator)
            && (desired[i].role in current ==> after[id].policy == current[desired[i].role].policy)
            && (desired[i].role !in current ==>
                  id == Uuid5(desired[i].role + "|" + name)
                  && after[id] == Grant(desired[i].role, name, desired[i].access, "null"))
  {
    FreeIdsAreApart(acl, name, operator, desired, current);
    var g, id := desired[i], TargetId(desired[i], name, current);
    if NeedsWrite(g, current) {
      UpsertIsWritten(desired, name, current, i);
    } else if id in Upserts(desired, name, current) {
      UpsertComesFrom(desired, name, current, id);
    }
    assert id !in Stale(desired, current);
  }

  /** Setting roles makes the request the complete list, touches nothing else and keeps the
      points of the roles that stay, when each role has one point to begin with and no id to be
      written is taken. */
  lemma SetRolesLands(acl: Acl, name: string, operator: string, desired: seq<RoleGrant>, current: map<string, Entry>)
    requires IsCurrent(current, acl, name, operator) && IsRequest(desired, operator) && name != ""
    requires OnePerRole(acl, name, operator) && IdsFree(acl, name, desired, current)
    ensures var after := Reconciled(acl, name, desired, current);
            Lands(after, name, operator, desired) && Framed(acl, after, name, operator)
            && KeepsPoints(acl, after, name, operator, desired) && AddsPoints(acl, after, name, operator, desired)
  {
    hide AddsPoints, KeepsPoints, Framed, Reconciled, GrantsAre, OnePerRole;
    ReconciledFrames(acl, name, operator, desired, current);
    PointsAreAdded(acl, name, operator, desired, current);
    PointsAreKept(acl, name, operator, desired, current);
    RequestIsAll(acl, name, operator, desired, current);
  }

  lemma RequestIsAll(acl: Acl, name: string, operator: string, desired: seq<RoleGrant>, current: map<string, Entry>)
    requires IsCurrent(current, acl, name, operator) && IsRequest(desired, operator) && name != ""
    requires OnePerRole(acl, name, operator) && IdsFree(acl, name, desired, current)
    ensures OnePerRole(Reconciled(acl, name, desired, current), name, operator)
    ensures GrantsAre(Reconciled(acl, name, desired, current), name, operator, desired)
  {
    hide Reconciled, TargetId, IsCurrent, IdsFree;
    var after := Reconciled(acl, name, desired, current);
    forall id | id in after && IsManaged(after[id], name, operator)
      ensures exists i :: 0 <= i < |desired| && id == TargetId(desired[i], name, current)
                          && after[id].role == desired[i].role && after[id].access == desired[i].access
    {
      ManagedIsRequested(acl, name, operator, desired, current, id);
    }
    forall g | g in desired
      ensures Holds(after, name, operator, g)
    {
      var i :| 0 <= i < |desired| && desired[i] == g;
      RequestIsHeld(acl, name, operator, desired, current, i);
    }
  }

  lemma PointsAreKept(acl: Acl, name: string, operator: string, desired: seq<RoleGrant>, current: map<string, Entry>)
    requires IsCurrent(current, acl, name, operator) && IsRequest(desired, operator) && name != ""
    requires OnePerRole(acl, name, operator) && IdsFree(acl, name, desired, current)
    ensures KeepsPoints(acl, Reconciled(acl, name, desired, current), name, operator, desired)
  {
    hide Reconciled;
    var after := Reconciled(acl, name, desired, current);
    forall id | id in acl && IsManaged(acl[id], name, operator) && HasRole(desired, acl[id].role)
      ensures id in after && after[id].Grant? && after[id].role == acl[id].role && after[id].policy == acl[id].policy
    {
      var i :| 0 <= i < |desired| && desired[i].role == acl[id].role;
      RequestIsHeld(acl, name, operator, desired, current, i);
    }
  }

  lemma PointsAreAdded(acl: Acl, name: string, operator: string, desired: seq<RoleGrant>, current: map<string, Entry>)
    requires IsCurrent(current, acl, name, operator) && IsRequest(desired, operator) && name != ""
    requires IdsFree(acl, name, desired, current)
    ensures AddsPoints(acl, Reconciled(acl, name, desired, current), name, operator, desired)
  {
    hide Reconciled;
    var after := Reconciled(acl, name, desired, current);
    forall g | g in desired && !HasPoint(acl, name, operator, g.role)
      ensures var id := Uuid5(g.role + "|" + name); id in after && after[id] == Grant(g.role, name, g.access, "null")
    {
      var i :| 0 <= i < |desired| && desired[i] == g;
      RequestIsHeld(acl, name, operator, desired, current, i);
    }
  }

  lemma ManagedIsRequested(acl: Acl, name: string, operator: string, desired: seq<RoleGrant>, current: map<string, Entry>, id: Id)
    requires IsCurrent(current, acl, name, operator) && IsRequest(desired, operator) && name != ""
    requires OnePerRole(acl, name, operator) && IdsFree(acl, name, desired, current)
    requires id in Reconciled(acl, name, desired, current)
    requires IsManaged(Reconciled(acl, name, desired, current)[id], name, operator)
    ensures var after := Reconciled(acl, name, desired, current);
            exists i :: 0 <= i < |desired| && id == TargetId(desired[i], name, current)
                        && after[id].role == desired[i].role && after[id].access == desired[i].access
  {
    ReconciledPoint(acl, name, operator, desired, current, id);
    var after := Reconciled(acl, name, desired, current);
    if id in acl && after[id] == acl[id] && id !in Upserts(desired, name, current) {
      var role := acl[id].role;
      assert current[role].id == id;
      assert id !in Stale(desired, current);
      var i :| 0 <= i < |desired| && desired[i].role == role;
      if NeedsWrite(desired[i], current) {
        FreeIdsAreApart(acl, name, operator, desired, current);
        UpsertIsWritten(desired, name, current, i);
      }
    }
  }

  /** The points of a role but the one that is remembered grant only what is requested. */
  ghost predicate SparesAreRequested(acl: Acl, name: string, operator: string, desired: seq<RoleGrant>, current: map<string, Entry>) {
    forall id :: id in acl && IsManaged(acl[id], name, operator)
                 && !(acl[id].role in current && current[acl[id].role].id == id) ==>
      RoleGrant(acl[id].role, acl[id].access) in desired
  }

  /** The grants become exactly the request if and only if the points that are not remembered, which
      are never looked at again, grant only what is requested. */
  lemma GrantsLandExactly(acl: Acl, name: string, operator: string, desired: seq<RoleGrant>, current: map<string, Entry>)
    requires IsCurrent(current, acl, name, operator) && IsRequest(desired, operator) && name != ""
    requires IdsFree(acl, name, desired, current)
    ensures GrantsAre(Reconciled(acl, name, desired, current), name, operator, desired)
            <==> SparesAreRequested(acl, name, operator, desired, current)
  {
    hide Reconciled, Upserts;
    var after := Reconciled(acl, name, desired, current);
    forall id | id in acl && IsManaged(acl[id], name, operator) && current[acl[id].role].id != id
      ensures id in after && after[id] == acl[id]
    {
      SpareIsKept(acl, name, operator, desired, current, id);
    }
    if SparesAreRequested(acl, name, operator, desired, current) {
      forall id | id in after && IsManaged(after[id], name, operator)
        ensures RoleGrant(after[id].role, after[id].access) in desired
      {
        if !(id in acl && IsManaged(acl[id], name, operator) && current[acl[id].role].id != id) {
          RememberedIsRequested(acl, name, operator, desired, current, id);
        }
      }
      forall g | g in desired
        ensures Holds(after, name, operator, g)
      {
        var i :| 0 <= i < |desired| && desired[i] == g;
        RequestIsHeld(acl, name, operator, desired, current, i);
      }
    }
  }

  lemma SpareIsKept(acl: Acl, name: string, operator: string, desired: seq<RoleGrant>, current: map<string, Entry>, spare: Id)
    requires IsCurrent(current, acl, name, operator) && IsRequest(desired, operator)
    requires IdsFree(acl, name, desired, current)
    requires spare in acl && IsManaged(acl[spare], name, operator) && current[acl[spare].role].id != spare
    ensures spare in Reconciled(acl, name, desired, current) && Reconciled(acl, name, desired, current)[spare] == acl[spare]
  {
    if spare in Upserts(desired, name, current) {
      UpsertComesFrom(desired, name, current, spare);
    }
    assert spare !in Upserts(desired, name, current);
  }

  lemma RememberedIsRequested(acl: Acl, name: string, operator: string, desired: seq<RoleGrant>, current: map<string, Entry>, id: Id)
    requires IsCurrent(current, acl, name, operator) && IsRequest(desired, operator) && name != ""
    requires IdsFree(acl, name, desired, current)
    requires id in Reconciled(acl, name, desired, current)
    requires IsManaged(Reconciled(acl, name, desired, current)[id], name, operator)
    requires id in acl && IsManaged(acl[id], name, operator) ==> current[acl[id].role].id == id
    ensures var after := Reconciled(acl, name, desired, current);
            RoleGrant(after[id].role, after[id].access) in desired
  {
    var after := Reconciled(acl, name, desired, current);
    ReconciledPoint(acl, name, operator, desired, current, id);
    if id in acl && after[id] == acl[id] && id !in Upserts(desired, name, current) {
      var role := acl[id].role;
      assert id !in Stale(desired, current);
      var i :| 0 <= i < |desired| && desired[i].role == role;
      if NeedsWrite(desired[i], current) {
        FreeIdsAreApart(acl, name, operator, desired, current);
        UpsertIsWritten(desired, name, current, i);
      }
      assert desired[i] == RoleGrant(role, acl[id].access);
    }
  }

  /** A role with two points, of which the one that is remembered is as requested: nothing is
      written, and the other one goes on granting more than was asked for. */
  lemma SpareGrantStays()
    ensures var a, b := Foreign("a"), Foreign("b");
            var acl := map[a := Grant("team", "docs", "r", "null"), b := Grant("team", "docs", "rw", "null")];
            var desired, current := [RoleGrant("team", "r")], map["team" := Entry(a, "r", "null")];
            && IsCurrent(current, acl, "docs", "op") && IsRequest(desired, "op") && IdsFree(acl, "docs", desired, current)
            && Reconciled(acl, "docs", desired, current) == acl && !GrantsAre(acl, "docs", "op", desired)
  {
    var a, b := Foreign("a"), Foreign("b");
    var acl := map[a := Grant("team", "docs", "r", "null"), b := Grant("team", "docs", "rw", "null")];
    var desired, current := [RoleGrant("team", "r")], map["team" := Entry(a, "r", "null")];
    assert Init(desired) == [] && desired[0].role == "team";
    assert Upserts(desired, "docs", current) == map[];
    assert Stale(desired, current) == {};
    assert IsManaged(acl[b], "docs", "op") && RoleGrant("team", "rw") !in desired;
  }

  /** A global grant stored under a collection's own name gives way to the grant of the collection. */
  lemma GlobalGrantIsOverwritten()
    ensures var id := AclPointId("team", "docs");
            var acl, desired := map[id := Grant("team", "docs", "m", "null")], [RoleGrant("team", "r")];
            && IsCurrent(map[], acl, "docs", "op") && IsRequest(desired, "op") && IsGlobal(acl[id], "team")
            && Reconciled(acl, "docs", desired, map[]) == map[id := Grant("team", "docs", "r", "null")]
  {
    var id := AclPointId("team", "docs");
    var desired := [RoleGrant("team", "r")];
    assert Init(desired) == [];
    assert Upserts(desired, "docs", map[]) == map[id := Grant("team", "docs", "r", "null")];
  }

  /** The points become one for each entry of the request if and only if each role had at most one
      before: of several, all but one are never looked at again. */
  lemma LandsExactlyWithoutDuplicates(acl: Acl, name: string, operator: string, desired: seq<RoleGrant>, current: map<string, Entry>)
    requires IsCurrent(current, acl, name, operator) && IsRequest(desired, operator) && name != ""
    requires IdsFree(acl, name, desired, current)
    ensures Lands(Reconciled(acl, name, desired, current), name, operator, desired) <==> OnePerRole(acl, name, operator)
  {
    if OnePerRole(acl, name, operator) {
      SetRolesLands(acl, name, operator, desired, current);
    } else {
      var i, j :| i in acl && j in acl && IsManaged(acl[i], name, operator) && IsManaged(acl[j], name, operator)
                  && acl[i].role == acl[j].role && i != j;
      var spare := if current[acl[i].role].id == i then j else i;
      SpareStays(acl, name, operator, desired, current, spare);
    }
  }

  /** A point of a role that is not the one remembered stays, whatever is requested. */
  lemma SpareStays(acl: Acl, name: string, operator: string, desired: seq<RoleGrant>, current: map<string, Entry>, spare: Id)
    requires IsCurrent(current, acl, name, operator) && IsRequest(desired, operator) && name != ""
    requires IdsFree(acl, name, desired, current)
    requires spare in acl && IsManaged(acl[spare], name, operator) && current[acl[spare].role].id != spare
    ensures !Lands(Reconciled(acl, name, desired, current), name, operator, desired)
  {
    var after, role := Reconciled(acl, name, desired, current), acl[spare].role;
    SpareIsKept(acl, name, operator, desired, current, spare);
    if Lands(after, name, operator, desired) {
      assert RoleGrant(role, acl[spare].access) in desired;
      var i :| 0 <= i < |desired| && desired[i].role == role;
      RequestIsHeld(acl, name, operator, desired, current, i);
    }
  }

  /** With one point for each role, everything else stays and the request lands if and only if
      the ids of the grants to be written were free: a global grant that was stored under the
      collection's own name is overwritten. */
  lemma FramesExactlyWithFreeIds(acl: Acl, name: string, operator: string, desired: seq<RoleGrant>, current: map<string, Entry>)
    requires IsCurrent(current, acl, name, operator) && IsRequest(desired, operator) && name != ""
    requires OnePerRole(acl, name, operator)
    ensures var after := Reconciled(acl, name, desired, current);
            Lands(after, name, operator, desired) && Framed(acl, after, name, operator)
            <==> IdsFree(acl, name, desired, current)
  {
    if IdsFree(acl, name, desired, current) {
      SetRolesLands(acl, name, operator, desired, current);
    } else {
      var i :| 0 <= i < |desired| && desired[i].role !in current && AclPointId(desired[i].role, name) in acl;
      TakenIdIsLost(acl, name, operator, desired, current, i);
    }
  }

  lemma TakenIdIsLost(acl: Acl, name: string, operator: string, desired: seq<RoleGrant>, current: map<string, Entry>, i: nat)
    requires IsCurrent(current, acl, name, operator) && IsRequest(desired, operator) && name != ""
    requires OnePerRole(acl, name, operator)
    requires i < |desired| && desired[i].role !in current && AclPointId(desired[i].role, name) in acl
    ensures var after := Reconciled(acl, name, desired, current);
            !(Lands(after, name, operator, desired) && Framed(acl, after, name, operator))
  {
    var after := Reconciled(acl, name, desired, current);
    var taken, role := AclPointId(desired[i].role, name), desired[i].role;
    if Lands(after, name, operator, desired) && Framed(acl, after, name, operator) {
      var id := TakenByNewRole(acl, name, operator, desired, current, i);
      assert id == taken;
      var other := acl[taken].role;
      assert IsManaged(acl[taken], name, operator) && current[other].id == taken;
      assert taken !in Stale(desired, current);
      var j :| 0 <= j < |desired| && desired[j].role == other;
      assert Holds(after, name, operator, desired[j]);
      var held :| held in after && IsManaged(after[held], name, operator) && after[held].role == other;
      ReconciledPoint(acl, name, operator, desired, current, held);
    }
  }

  /** In an outcome that lands, the point of a role that had none is at its derived id. */
  lemma TakenByNewRole(acl: Acl, name: string, operator: string, desired: seq<RoleGrant>, current: map<string, Entry>, i: nat)
    returns (id: Id)
    requires IsCurrent(current, acl, name, operator) && IsRequest(desired, operator)
    requires i < |desired| && desired[i].role !in current
    requires Lands(Reconciled(acl, name, desired, current), name, operator, desired)
    ensures id == AclPointId(desired[i].role, name)
    ensures var after := Reconciled(acl, name, desired, current);
            id in after && IsManaged(after[id], name, operator) && after[id].role == desired[i].role
  {
    var after := Reconciled(acl, name, desired, current);
    assert Holds(after, name, operator, desired[i]);
    id :| id in after && IsManaged(after[id], name, operator) && after[id].role == desired[i].role;
    ReconciledPoint(acl, name, operator, desired, current, id);
  }
}
