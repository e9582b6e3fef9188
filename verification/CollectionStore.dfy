/** The writes of the Collections page (`CollectionStore`): setting the roles of a collection,
    creating one and deleting one. Any call to Qdrant may fail, and a write that failed may
    have taken effect all the same. */
module CollectionStore {
  import opened AclStore
  import opened Splitting
  import opened Wrappers

  datatype Meta = Meta(model: string, size: int)

  datatype State = State(collections: set<string>, meta: map<string, Meta>, acl: Acl)

  // ---------------------------------------------------------------- the operator's grant

  ghost predicate HasOperator(acl: Acl, operator: string) {
    exists id :: id in acl && IsGlobal(acl[id], operator)
  }

  function OperatorId(operator: string): Id {
    AclPointId(operator, GLOBAL_COLLECTION)
  }

  function OperatorGrant(operator: string): Payload {
    Grant(operator, GLOBAL_COLLECTION, "m", "null")
  }

  /** `_ensure_operator`, deciding by the points as they were read before the other writes. */
  ghost function WithOperator(read: Acl, acl: Acl, operator: string): Acl {
    if HasOperator(read, operator) then acl else acl[OperatorId(operator) := OperatorGrant(operator)]
  }

  /** The id of the operator's grant is not used for anything else. */
  ghost predicate OperatorIdFree(acl: Acl, operator: string) {
    operator != "" && '|' !in operator
    && (OperatorId(operator) in acl ==> IsGlobal(acl[OperatorId(operator)], operator))
  }

  /** What `set_roles` and `create` leave in the ACL collection. */
  ghost function Granted(acl: Acl, name: string, desired: seq<RoleGrant>, current: map<string, Entry>, operator: string): Acl {
    WithOperator(acl, Reconciled(acl, name, desired, current), operator)
  }

  /** The state of the ACL a write can rely on. */
  ghost predicate Healthy(acl: Acl, name: string, operator: string, desired: seq<RoleGrant>, current: map<string, Entry>) {
    OnePerRole(acl, name, operator) && IdsFree(acl, name, desired, current) && OperatorIdFree(acl, operator)
  }

  lemma OperatorIdIsUntouched(acl: Acl, name: string, operator: string, desired: seq<RoleGrant>, current: map<string, Entry>)
    requires IsCurrent(current, acl, name, operator) && IsRequest(desired, operator) && OperatorIdFree(acl, operator)
    requires !HasOperator(acl, operator)
    ensures OperatorId(operator) !in acl && OperatorId(operator) !in Reconciled(acl, name, desired, current)
  {
    var id := OperatorId(operator);
    assert id !in acl;
    forall i | 0 <= i < |desired|
      ensures TargetId(desired[i], name, current) != id
    {
      AclPointIdInjective(desired[i].role, name, operator, GLOBAL_COLLECTION);
      assert desired[i].role in current ==> current[desired[i].role].id in acl;
    }
    if id in Upserts(desired, name, current) {
      UpsertComesFrom(desired, name, current, id);
    }
  }

  /** After the roles of a collection were set, its grants are the request, the operator has a
      global grant, and every point but these is as it was. */
  lemma GrantedLands(acl: Acl, name: string, operator: string, desired: seq<RoleGrant>, current: map<string, Entry>)
    requires IsCurrent(current, acl, name, operator) && IsRequest(desired, operator) && name != ""
    requires Healthy(acl, name, operator, desired, current)
    ensures var after := Granted(acl, name, desired, current, operator);
            && Lands(after, name, operator, desired) && HasOperator(after, operator)
            && KeepsPoints(acl, after, name, operator, desired) && AddsPoints(acl, after, name, operator, desired)
            && (HasOperator(acl, operator) ==> Framed(acl, after, name, operator))
            && (!HasOperator(acl, operator) ==>
                  && OperatorId(operator) !in acl && Framed(acl, after - {OperatorId(operator)}, name, operator)
                  && OperatorId(operator) == Uuid5(operator + "|*") && OperatorId(operator) in after
                  && after[OperatorId(operator)] == Grant(operator, "*", "m", "null"))
  {
    hide Lands, Framed, KeepsPoints, AddsPoints, Reconciled;
    SetRolesLands(acl, name, operator, desired, current);
    var before := Reconciled(acl, name, desired, current);
    if HasOperator(acl, operator) {
      GlobalStays(acl, before, name, operator);
    } else {
      OperatorIdIsUntouched(acl, name, operator, desired, current);
      AddingTheOperator(acl, before, name, operator, desired);
    }
  }

  lemma GlobalStays(before: Acl, after: Acl, name: string, operator: string)
    requires Framed(before, after, name, operator) && HasOperator(before, operator)
    ensures HasOperator(after, operator)
  {
    var id :| id in before && IsGlobal(before[id], operator);
    assert id in after && after[id] == before[id];
  }

  lemma AddingTheOperator(start: Acl, before: Acl, name: string, operator: string, desired: seq<RoleGrant>)
    requires OperatorId(operator) !in before && OperatorId(operator) !in start && operator != ""
    requires Lands(before, name, operator, desired) && KeepsPoints(start, before, name, operator, desired)
    requires AddsPoints(start, before, name, operator, desired)
    ensures var after := before[OperatorId(operator) := OperatorGrant(operator)];
            && Lands(after, name, operator, desired) && HasOperator(after, operator)
            && KeepsPoints(start, after, name, operator, desired) && AddsPoints(start, after, name, operator, desired)
            && after - {OperatorId(operator)} == before
  {
    var after := before[OperatorId(operator) := OperatorGrant(operator)];
    assert IsGlobal(after[OperatorId(operator)], operator);
    assert !IsManaged(OperatorGrant(operator), name, operator);
    forall g | g in desired
      ensures Holds(after, name, operator, g)
    {
      assert Holds(before, name, operator, g);
      var id :| id in before && IsManaged(before[id], name, operator) && before[id].role == g.role && before[id].access == g.access;
      assert after[id] == before[id];
    }
  }

  // ---------------------------------------------------------------- removing a collection

  /** `_purge`: every grant of the collection goes, whoever holds it; a global one stays even if
      it names the collection. */
  function Purged(acl: Acl, name: string): Acl {
    map id | id in acl && !IsOf(acl[id], name) :: acl[id]
  }

  ghost predicate Gone(s: State, name: string) {
    name !in s.collections && name !in s.meta && forall id :: id in s.acl ==> !IsOf(s.acl[id], name)
  }

  function Removed(s: State, name: string): State {
    State(s.collections - {name}, s.meta - {name}, Purged(s.acl, name))
  }

  /** Only the collection, its description and the grants of roles to read or write it have gone. */
  ghost predicate TakesOnly(before: State, after: State, name: string) {
    && (forall c :: c in after.collections <==> c in before.collections && c != name)
    && (forall c :: c in after.meta <==> c in before.meta && c != name)
    && (forall c :: c in after.meta ==> after.meta[c] == before.meta[c])
    && (forall id :: id in after.acl <==> id in before.acl && !GrantsAccess(before.acl[id], name))
    && (forall id :: id in after.acl ==> after.acl[id] == before.acl[id])
  }

  ghost predicate GrantsAccess(p: Payload, name: string) {
    p.Grant? && p.role != "" && p.collection == name && (p.access == "r" || p.access == "rw")
  }

  lemma RemovedIsGone(s: State, name: string)
    ensures Gone(Removed(s, name), name)
    ensures Removed(Removed(s, name), name) == Removed(s, name)
    ensures Gone(s, name) ==> Removed(s, name) == s
    ensures name != "" ==> TakesOnly(s, Removed(s, name), name)
  {
    var once := Removed(s, name);
    assert Purged(once.acl, name) == once.acl;
    if Gone(s, name) {
      assert Purged(s.acl, name) == s.acl;
    }
  }

  /** Nothing to revive: whatever grants a collection had, after it was removed setting its roles
      starts from nothing, and lands on the request unless a derived id is taken by a grant that
      outlives collections. */
  lemma RecreateStartsFromNothing(s: State, name: string, operator: string, desired: seq<RoleGrant>, current: map<string, Entry>)
    requires IsRequest(desired, operator) && name != ""
    requires IsCurrent(current, Removed(s, name).acl, name, operator)
    ensures current == map[] && OnePerRole(Removed(s, name).acl, name, operator)
    ensures IdsFree(Removed(s, name).acl, name, desired, current) <==>
              forall i :: 0 <= i < |desired| ==>
                AclPointId(desired[i].role, name) in s.acl ==> IsOf(s.acl[AclPointId(desired[i].role, name)], name)
  {
    assert forall role :: role !in current;
  }

  /** Deleting a collection and creating it again gives exactly the new grants, none of them with an
      old policy, and leaves every grant that is not of the collection. */
  lemma RecreateLands(s: State, name: string, operator: string, desired: seq<RoleGrant>, current: map<string, Entry>)
    requires IsRequest(desired, operator) && name != ""
    requires IsCurrent(current, Removed(s, name).acl, name, operator)
    requires OperatorIdFree(Removed(s, name).acl, operator) && IdsFree(Removed(s, name).acl, name, desired, current)
    ensures var after := Granted(Removed(s, name).acl, name, desired, current, operator);
            && Lands(after, name, operator, desired) && HasOperator(after, operator)
            && (forall id :: id in after && IsOf(after[id], name) ==>
                  RoleGrant(after[id].role, after[id].access) in desired && after[id].policy == "null")
            && (forall id :: id in s.acl && !IsOf(s.acl[id], name) ==> id in after && after[id] == s.acl[id])
  {
    hide Lands, Reconciled, KeepsPoints, IdsFree, OperatorIdFree;
    var acl := Removed(s, name).acl;
    RecreateStartsFromNothing(s, name, operator, desired, current);
    GrantedLands(acl, name, operator, desired, current);
    var after := Granted(acl, name, desired, current, operator);
    forall id | id in after && IsOf(after[id], name)
      ensures RoleGrant(after[id].role, after[id].access) in desired && after[id].policy == "null"
    {
      assert id !in acl || after[id] != acl[id];
      NewGrantIsRequested(acl, name, operator, desired, current, id);
    }
    forall id | id in s.acl && !IsOf(s.acl[id], name)
      ensures id in after && after[id] == s.acl[id]
    {
      assert id in acl && acl[id] == s.acl[id] && !IsManaged(acl[id], name, operator);
      if !HasOperator(acl, operator) {
        assert id in after - {OperatorId(operator)};
      }
    }
  }

  lemma NewGrantIsRequested(acl: Acl, name: string, operator: string, desired: seq<RoleGrant>, current: map<string, Entry>, id: Id)
    requires IsCurrent(current, acl, name, operator) && current == map[] && name != ""
    requires var after := Granted(acl, name, desired, current, operator);
             id in after && IsOf(after[id], name) && (id !in acl || after[id] != acl[id])
    ensures var after := Granted(acl, name, desired, current, operator);
            RoleGrant(after[id].role, after[id].access) in desired && after[id].policy == "null"
  {
    hide Reconciled;
    assert !IsOf(OperatorGrant(operator), name);
    ReconciledPoint(acl, name, operator, desired, current, id);
    var i :| 0 <= i < |desired| && Reconciled(acl, name, desired, current)[id] == Target(desired[i], name, current);
    assert desired[i] in desired;
  }

  /** The points a half-made collection may have left are the ones a purge takes away. */
  ghost predicate AddsOnlyOf(before: Acl, after: Acl, name: string) {
    && (forall id :: id in before && !IsOf(before[id], name) ==> id in after && after[id] == before[id])
    && (forall id :: id in after && !IsOf(after[id], name) ==> id in before && before[id] == after[id])
  }

  lemma PurgeUndoes(before: Acl, after: Acl, name: string)
    requires AddsOnlyOf(before, after, name)
    ensures Purged(after, name) == Purged(before, name)
  {
  }

  lemma UpsertsAddOnlyOf(acl: Acl, name: string, operator: string, desired: seq<RoleGrant>, current: map<string, Entry>)
    requires IsCurrent(current, acl, name, operator) && IsRequest(desired, operator) && name != ""
    requires IdsFree(acl, name, desired, current)
    ensures AddsOnlyOf(acl, acl + Upserts(desired, name, current), name)
    ensures AddsOnlyOf(acl, Reconciled(acl, name, desired, current), name)
  {
    forall id | id in Upserts(desired, name, current)
      ensures IsOf(Upserts(desired, name, current)[id], name) && (id in acl ==> IsOf(acl[id], name))
    {
      UpsertComesFrom(desired, name, current, id);
    }
    forall id | id in Stale(desired, current)
      ensures id in acl && IsOf(acl[id], name)
    {
    }
  }

  // ---------------------------------------------------------------- the store

  /** Where a call fails, and whether the write that failed took effect. */
  datatype Fault =
    | NoFault
    | AtCheck
    | AtCollection(applied: bool)
    | AtIndex
    | AtMeta(applied: bool)
    | AtRead
    | AtUpsert(applied: bool)
    | AtRemove(applied: bool)
    | AtOperator(applied: bool)

  datatype Outcome = Done | Invalid | Exists | NotFound | Failed

  class Store {
    var collections: set<string>
    var meta: map<string, Meta>
    var acl: Acl
    const operator: string
    const system: set<string>

    constructor (operator: string, system: set<string>)
      ensures this.operator == operator && this.system == system && Now() == State({}, map[], map[])
    {
      this.operator, this.system := operator, system;
      collections, meta, acl := {}, map[], map[];
    }

    ghost function Now(): State
      reads this
    {
      State(collections, meta, acl)
    }

    /** `current`: the points in whatever order Qdrant lists them. */
    method ReadCurrent(name: string) returns (current: map<string, Entry>)
      ensures IsCurrent(current, acl, name, operator)
    {
      var left := acl.Keys;
      current := map[];
      while left != {}
        invariant left <= acl.Keys
        invariant IsCurrent(current, acl - left, name, operator)
      {
        var id :| id in left;
        assert forall k :: k in acl - (left - {id}) <==> k in acl - left || k == id;
        left := left - {id};
        var p := acl[id];
        if IsManaged(p, name, operator) {
          current := current[p.role := Entry(id, p.access, p.policy)];
        }
      }
      assert acl - {} == acl;
    }

    /** `_ensure_operator` on the points that were read. */
    method FindOperator(read: Acl) returns (found: bool)
      ensures found == HasOperator(read, operator)
    {
      var left := read.Keys;
      while left != {}
        invariant left <= read.Keys
        invariant forall id :: id in read && id !in left ==> !IsGlobal(read[id], operator)
      {
        var id :| id in left;
        if IsGlobal(read[id], operator) {
          return true;
        }
        left := left - {id};
      }
      found := false;
    }

    /** `_apply_grants`: the upserts are one write, the removals another. */
    method ApplyGrants(name: string, desired: seq<RoleGrant>, current: map<string, Entry>, fault: Fault) returns (ok: bool)
      modifies this`acl
      ensures ok <==> !(fault.AtUpsert? || fault.AtRemove?)
      ensures ok ==> acl == Reconciled(old(acl), name, desired, current)
      ensures acl in {old(acl), old(acl) + Upserts(desired, name, current), Reconciled(old(acl), name, desired, current)}
    {
      var upserts: Acl := map[];
      var i := 0;
      while i < |desired|
        invariant i <= |desired| && acl == old(acl)
        invariant upserts == Upserts(desired[..i], name, current)
      {
        var g := desired[i];
        assert Init(desired[..i + 1]) == desired[..i] && Last(desired[..i + 1]) == g;
        if NeedsWrite(g, current) {
          upserts := upserts[TargetId(g, name, current) := Target(g, name, current)];
        }
        i := i + 1;
      }
      assert desired[..i] == desired;
      if fault.AtUpsert? {
        if fault.applied {
          acl := acl + upserts;
        }
        return false;
      }
      acl := acl + upserts;
      if fault.AtRemove? {
        if fault.applied {
          acl := acl - Stale(desired, current);
        }
        return false;
      }
      acl := acl - Stale(desired, current);
      ok := true;
    }

    /** `set_roles` on a validated request: all of it, or as far as the call that fails. */
    method SetRoles(name: string, desired: seq<RoleGrant>, fault: Fault) returns (outcome: Outcome, ghost current: map<string, Entry>)
      requires IsRequest(desired, operator) && name != ""
      modifies this`acl
      ensures IsCurrent(current, old(acl), name, operator)
      ensures outcome == (
        if name in system then Invalid
        else if fault.AtCheck? then Failed
        else if name !in collections then NotFound
        else if fault.AtRead? || fault.AtUpsert? || fault.AtRemove? || (fault.AtOperator? && !HasOperator(old(acl), operator))
          then Failed
        else Done)
      ensures outcome.Done? ==> acl == Granted(old(acl), name, desired, current, operator)
      ensures outcome.Failed? ==>
                acl in {old(acl), old(acl) + Upserts(desired, name, current),
                        Reconciled(old(acl), name, desired, current), Granted(old(acl), name, desired, current, operator)}
      ensures outcome.Invalid? || outcome.NotFound? || fault.AtCheck? || fault.AtRead? ==> acl == old(acl)
    {
      hide Upserts, Stale, Reconciled, IsCurrent;
      var found := ReadCurrent(name);
      current := found;
      if name in system {
        return Invalid, current;
      }
      if fault.AtCheck? {
        return Failed, current;
      }
      if name !in collections {
        return NotFound, current;
      }
      if fault.AtRead? {
        return Failed, current;
      }
      var read := acl;
      var applied := ApplyGrants(name, desired, found, fault);
      if !applied {
        return Failed, current;
      }
      var hasOperator := FindOperator(read);
      if !hasOperator {
        if fault.AtOperator? && !fault.applied {
          return Failed, current;
        }
        acl := acl[OperatorId(operator) := OperatorGrant(operator)];
        if fault.AtOperator? {
          return Failed, current;
        }
      }
      outcome := Done;
    }

    /** `_purge` and `_discard` when their calls succeed. */
    method Discard(name: string)
      modifies this
      ensures Now() == Removed(old(Now()), name)
    {
      collections := collections - {name};
      meta := meta - {name};
      acl := map id | id in acl && !IsOf(acl[id], name) :: acl[id];
    }

    /** `delete`: a collection that is already gone still has its leftovers removed. One that
        stops after `stopsAfter` of its three writes is finished by the next one. */
    method Delete(name: string, stopsAfter: nat) returns (outcome: Outcome)
      modifies this
      ensures outcome == if name in system then Invalid else if stopsAfter < 3 then Failed else Done
      ensures outcome.Invalid? ==> Now() == old(Now())
      ensures outcome.Done? ==> Now() == Removed(old(Now()), name)
      ensures outcome.Failed? ==> Removed(Now(), name) == Removed(old(Now()), name)
    {
      if name in system {
        return Invalid;
      }
      if stopsAfter == 0 {
        return Failed;
      }
      collections := collections - {name};
      if stopsAfter == 1 {
        return Failed;
      }
      meta := meta - {name};
      if stopsAfter == 2 {
        return Failed;
      }
      acl := map id | id in acl && !IsOf(acl[id], name) :: acl[id];
      outcome := Done;
    }

    /** The calls of `create` after the collection exists, up to the first that fails. */
    method Furnish(name: string, model: Option<string>, size: int, desired: seq<RoleGrant>, fault: Fault)
      returns (ok: bool, ghost current: map<string, Entry>)
      requires IsRequest(desired, operator) && name != ""
      modifies this`meta, this`acl
      ensures meta == old(meta) || (model.Some? && meta == old(meta)[name := Meta(model.value, size)])
      ensures IsCurrent(current, old(acl), name, operator)
      ensures ok ==> acl == Granted(old(acl), name, desired, current, operator)
                     && meta == (if model.Some? then old(meta)[name := Meta(model.value, size)] else old(meta))
      ensures acl in {old(acl), old(acl) + Upserts(desired, name, current),
                      Reconciled(old(acl), name, desired, current), Granted(old(acl), name, desired, current, operator)}
      ensures ok <==> fault.NoFault? || fault.AtCheck? || fault.AtCollection?
                      || (fault.AtMeta? && model.None?)
                      || (fault.AtOperator? && HasOperator(old(acl), operator))
    {
      var found := ReadCurrent(name);
      current := found;
      if fault.AtIndex? {
        return false, current;
      }
      if model.Some? {
        if fault.AtMeta? && !fault.applied {
          return false, current;
        }
        meta := meta[name := Meta(model.value, size)];
        if fault.AtMeta? {
          return false, current;
        }
      }
      if fault.AtRead? {
        return false, current;
      }
      var read := acl;
      var applied := ApplyGrants(name, desired, found, fault);
      if !applied {
        return false, current;
      }
      var hasOperator := FindOperator(read);
      if !hasOperator {
        if fault.AtOperator? && !fault.applied {
          return false, current;
        }
        acl := acl[OperatorId(operator) := OperatorGrant(operator)];
        if fault.AtOperator? {
          return false, current;
        }
      }
      return true, current;
    }

    /** `create`, with clean-up calls that succeed. */
    method Create(name: string, model: Option<string>, size: int, desired: seq<RoleGrant>, fault: Fault)
      returns (outcome: Outcome, ghost current: map<string, Entry>)
      requires IsRequest(desired, operator) && name != ""
      modifies this
      ensures IsCurrent(current, old(acl), name, operator)
      ensures outcome.Done? ==>
                && collections == old(collections) + {name}
                && meta == (if model.Some? then old(meta)[name := Meta(model.value, size)] else old(meta))
                && acl == Granted(old(acl), name, desired, current, operator)
      ensures outcome.Invalid? || outcome.Exists? || fault.AtCheck? ==> Now() == old(Now())
      ensures outcome.Exists? <==> name !in system && !fault.AtCheck? && name in old(collections)
      ensures outcome.Done? <==> name !in system && name !in old(collections)
                                 && (fault.NoFault? || (fault.AtMeta? && model.None?)
                                     || (fault.AtOperator? && HasOperator(old(acl), operator)))
      ensures outcome.Failed? && fault.AtCollection? ==>
                Now() == if fault.applied then old(Now()).(collections := old(collections) + {name}) else old(Now())
      ensures outcome.Failed? && !fault.AtCheck? && !fault.AtCollection?
              && IdsFree(old(acl), name, desired, current) && OperatorIdFree(old(acl), operator) ==>
                Gone(Now(), name) && Restored(old(Now()), Now(), name, operator)
    {
      hide Upserts, Stale, Reconciled, IsCurrent, IdsFree, OperatorIdFree, Granted, Gone, Restored, Removed;
      var found := ReadCurrent(name);
      current := found;
      if name in system {
        return Invalid, current;
      }
      if fault.AtCheck? {
        return Failed, current;
      }
      if name in collections {
        return Exists, current;
      }
      if fault.AtCollection? {
        if fault.applied {
          collections := collections + {name};
        }
        return Failed, current;
      }
      collections := collections + {name};
      var ok;
      ok, current := Furnish(name, model, size, desired, fault);
      if !ok {
        ghost var half := Now();
        assert meta - {name} == old(meta) - {name};
        Discard(name);
        if IdsFree(old(acl), name, desired, current) && OperatorIdFree(old(acl), operator) {
          DiscardRestores(old(Now()), half, name, operator, desired, current);
        }
        return Failed, current;
      }
      outcome := Done;
    }
  }

  /** As before, without leftovers of the collection, and perhaps with the operator's grant. */
  ghost predicate Restored(before: State, after: State, name: string, operator: string) {
    || after == Removed(before, name)
    || (!HasOperator(before.acl, operator) &&
        after == Removed(before, name).(acl := Purged(before.acl, name)[OperatorId(operator) := OperatorGrant(operator)]))
  }

  lemma DiscardRestores(before: State, half: State, name: string, operator: string, desired: seq<RoleGrant>, current: map<string, Entry>)
    requires IsCurrent(current, before.acl, name, operator) && IsRequest(desired, operator) && name != ""
    requires IdsFree(before.acl, name, desired, current) && OperatorIdFree(before.acl, operator)
    requires half.collections == before.collections + {name}
    requires half.meta - {name} == before.meta - {name}
    requires half.acl in {before.acl, before.acl + Upserts(desired, name, current), Reconciled(before.acl, name, desired, current),
                          Granted(before.acl, name, desired, current, operator)}
    ensures Gone(Removed(half, name), name) && Restored(before, Removed(half, name), name, operator)
  {
    hide Upserts, Stale, Reconciled, IsCurrent, IdsFree, OperatorIdFree, Granted;
    DiscardUndoes(before.acl, half.acl, name, operator, desired, current);
    RemovedIsGone(half, name);
    assert half.collections - {name} == before.collections - {name};
  }

  /** Whatever the calls of `create` had written, purging it leaves what was there before, apart
      from the operator's own grant. */
  lemma DiscardUndoes(acl: Acl, half: Acl, name: string, operator: string, desired: seq<RoleGrant>, current: map<string, Entry>)
    requires IsCurrent(current, acl, name, operator) && IsRequest(desired, operator) && name != ""
    requires IdsFree(acl, name, desired, current) && OperatorIdFree(acl, operator)
    requires half in {acl, acl + Upserts(desired, name, current),
                      Reconciled(acl, name, desired, current), Granted(acl, name, desired, current, operator)}
    ensures Purged(half, name) == Purged(acl, name)
            || (!HasOperator(acl, operator) && Purged(half, name) == Purged(acl, name)[OperatorId(operator) := OperatorGrant(operator)])
  {
    hide Upserts, Stale, IsCurrent, IdsFree, Reconciled;
    UpsertsAddOnlyOf(acl, name, operator, desired, current);
    var after := Reconciled(acl, name, desired, current);
    PurgeUndoes(acl, acl + Upserts(desired, name, current), name);
    PurgeUndoes(acl, after, name);
    if half == Granted(acl, name, desired, current, operator) && !HasOperator(acl, operator) {
      assert !IsOf(OperatorGrant(operator), name);
      assert Purged(half, name) == Purged(after, name)[OperatorId(operator) := OperatorGrant(operator)];
    }
  }
}
