/** The admin handlers: changing a user's role and toggling a user's membership
    of a division. Each re-reads the caller's role from the directory, demands
    exactly "admin", then (for the toggles) checks the caller's own membership of
    the division before the target's, and performs at most one store write. */
module AdminUser {
  import opened Vault
  import opened Aggregate

  // ---------------------------------------------------------------------------
  // The store writes

  /** `$push: {'divisions.$.users': u}` on division `j` of org unit `i`. */
  function PushMember(ous: seq<OrgUnit>, i: nat, j: nat, u: Id): seq<OrgUnit>
    requires i < |ous| && j < |ous[i].divisions|
  {
    var dv := ous[i].divisions[j];
    WithDivision(ous, i, j, dv.(users := dv.users + [u]))
  }

  /** `$pull: {'divisions.$.users': u}` on division `j` of org unit `i`. */
  function PullMember(ous: seq<OrgUnit>, i: nat, j: nat, u: Id): seq<OrgUnit>
    requires i < |ous| && j < |ous[i].divisions|
  {
    var dv := ous[i].divisions[j];
    WithDivision(ous, i, j, dv.(users := Without(dv.users, u)))
  }

  // ---------------------------------------------------------------------------
  // The handlers, as functions of the store

  /** updateRole: admin gate, role validation, then `$set` of the target's role. */
  function UpdateRoleSpec(s: Store, caller: Id, target: Id, newRole: string): Reply
  {
    match StoredRole(s.users, caller)
    case None => Reply(Failed(ServerError), s)
    case Some(role) =>
      if role != Admin then Reply(Failed(Forbidden(RoleGate)), s)
      else if !IsValidRole(newRole) then Reply(Failed(InvalidRole), s)
      else Reply(Done, s.(users := SetRole(s.users, target, newRole)))
  }

  /** assignDivision: admin gate, caller membership, target not yet a member, then `$push`. */
  function AssignSpec(s: Store, caller: Id, target: Id, ou: string, d: string): Reply
  {
    match StoredRole(s.users, caller)
    case None => Reply(Failed(ServerError), s)
    case Some(role) =>
      if role != Admin then Reply(Failed(Forbidden(RoleGate)), s)
      else if |Scope(Rows(s.orgUnits, caller), ou, d)| == 0 then Reply(Failed(Forbidden(MembershipGate)), s)
      else if |Scope(Rows(s.orgUnits, target), ou, d)| > 0 then Reply(Failed(AlreadyAssigned), s)
      else match Locate(s.orgUnits, ou, d, None)
        case None => Reply(Done, s)
        case Some(p) => Reply(Done, s.(orgUnits := PushMember(s.orgUnits, p.0, p.1, target)))
  }

  /** unassignDivision: admin gate, caller membership, target a member, then `$pull`. */
  function UnassignSpec(s: Store, caller: Id, target: Id, ou: string, d: string): Reply
  {
    match StoredRole(s.users, caller)
    case None => Reply(Failed(ServerError), s)
    case Some(role) =>
      if role != Admin then Reply(Failed(Forbidden(RoleGate)), s)
      else if |Scope(Rows(s.orgUnits, caller), ou, d)| == 0 then Reply(Failed(Forbidden(MembershipGate)), s)
      else if |Scope(Rows(s.orgUnits, target), ou, d)| == 0 then Reply(Failed(NotAssigned), s)
      else match Locate(s.orgUnits, ou, d, Some(target))
        case None => Reply(Done, s)
        case Some(p) => Reply(Done, s.(orgUnits := PullMember(s.orgUnits, p.0, p.1, target)))
  }

  // ---------------------------------------------------------------------------
  // The handlers, as updates of the database

  method UpdateRole(db: Database, caller: Id, target: Id, newRole: string) returns (st: Status)
    modifies db
    ensures Reply(st, db.Snapshot()) == UpdateRoleSpec(old(db.Snapshot()), caller, target, newRole)
  {
    var admin := FindUser(db.users, caller);
    if admin.None? {
      return Failed(ServerError);
    }
    if admin.value.role != Admin {
      return Failed(Forbidden(RoleGate));
    }
    if newRole != Normal && newRole != Management && newRole != Admin {
      return Failed(InvalidRole);
    }
    db.users := SetRole(db.users, target, newRole);
    return Done;
  }

  method AssignDivision(db: Database, caller: Id, target: Id, ou: string, d: string) returns (st: Status)
    modifies db
    ensures Reply(st, db.Snapshot()) == AssignSpec(old(db.Snapshot()), caller, target, ou, d)
  {
    var admin := FindUser(db.users, caller);
    if admin.None? {
      return Failed(ServerError);
    }
    if admin.value.role != Admin {
      return Failed(Forbidden(RoleGate));
    }
    var adminResult := Scope(Rows(db.orgUnits, caller), ou, d);
    if |adminResult| == 0 {
      return Failed(Forbidden(MembershipGate));
    }
    var userResult := Scope(Rows(db.orgUnits, target), ou, d);
    if |userResult| > 0 {
      return Failed(AlreadyAssigned);
    }
    var at := Locate(db.orgUnits, ou, d, None);
    if at.Some? {
      db.orgUnits := PushMember(db.orgUnits, at.value.0, at.value.1, target);
    }
    return Done;
  }

  method UnassignDivision(db: Database, caller: Id, target: Id, ou: string, d: string) returns (st: Status)
    modifies db
    ensures Reply(st, db.Snapshot()) == UnassignSpec(old(db.Snapshot()), caller, target, ou, d)
  {
    var admin := FindUser(db.users, caller);
    if admin.None? {
      return Failed(ServerError);
    }
    if admin.value.role != Admin {
      return Failed(Forbidden(RoleGate));
    }
    var adminResult := Scope(Rows(db.orgUnits, caller), ou, d);
    if |adminResult| == 0 {
      return Failed(Forbidden(MembershipGate));
    }
    var userResult := Scope(Rows(db.orgUnits, target), ou, d);
    if |userResult| == 0 {
      return Failed(NotAssigned);
    }
    var at := Locate(db.orgUnits, ou, d, Some(target));
    if at.Some? {
      db.orgUnits := PullMember(db.orgUnits, at.value.0, at.value.1, target);
    }
    return Done;
  }

  // ---------------------------------------------------------------------------
  // Properties

  /** A caller whose stored role is not exactly "admin" is turned away by all three
      handlers, before anything else is looked at, and the store stays as it was. */
  lemma NonAdminRejected(s: Store, caller: Id, target: Id, newRole: string, ou: string, d: string)
    requires StoredRole(s.users, caller) != Some(Admin)
    ensures var why := if StoredRole(s.users, caller).None? then ServerError else Forbidden(RoleGate);
      && UpdateRoleSpec(s, caller, target, newRole) == Reply(Failed(why), s)
      && AssignSpec(s, caller, target, ou, d) == Reply(Failed(why), s)
      && UnassignSpec(s, caller, target, ou, d) == Reply(Failed(why), s)
  {
  }

  /** An admin asking for a role outside the three is refused, and no role changes. */
  lemma InvalidRoleRejected(s: Store, caller: Id, target: Id, newRole: string)
    requires StoredRole(s.users, caller) == Some(Admin) && !IsValidRole(newRole)
    ensures UpdateRoleSpec(s, caller, target, newRole) == Reply(Failed(InvalidRole), s)
  {
  }

  /** A successful role change touches the role of the target's directory entry and nothing
      else; it succeeds even when no user has the target id. */
  lemma UpdateRoleEffect(s: Store, caller: Id, target: Id, newRole: string)
    requires StoredRole(s.users, caller) == Some(Admin) && IsValidRole(newRole)
    requires UniqueUserIds(s.users)
    ensures var r := UpdateRoleSpec(s, caller, target, newRole);
      && r.status == Done
      && r.store.orgUnits == s.orgUnits
      && |r.store.users| == |s.users|
      && (forall k :: 0 <= k < |s.users| ==>
            r.store.users[k] == if s.users[k].id == target then s.users[k].(role := newRole) else s.users[k])
  {
    var users := UpdateRoleSpec(s, caller, target, newRole).store.users;
    forall k | 0 <= k < |s.users|
      ensures users[k] == if s.users[k].id == target then s.users[k].(role := newRole) else s.users[k]
    {
      match UserIndex(s.users, target)
      case None =>
      case Some(m) =>
        if s.users[k].id == target {
          assert k == m;
        }
    }
  }

  /** Every stored role stays one of the three, whatever updateRole answers. */
  lemma UpdateRoleKeepsRolesValid(s: Store, caller: Id, target: Id, newRole: string)
    requires ValidRoles(s.users)
    ensures ValidRoles(UpdateRoleSpec(s, caller, target, newRole).store.users)
  {
  }

  /** The caller's own membership is checked before the target's: an admin outside the
      division is refused whatever the target's membership, and nothing changes. */
  lemma MembershipGateFirst(s: Store, caller: Id, target: Id, ou: string, d: string)
    requires StoredRole(s.users, caller) == Some(Admin) && !IsMember(s.orgUnits, caller, ou, d)
    ensures AssignSpec(s, caller, target, ou, d) == Reply(Failed(Forbidden(MembershipGate)), s)
    ensures UnassignSpec(s, caller, target, ou, d) == Reply(Failed(Forbidden(MembershipGate)), s)
  {
    ScopedRowsIffMember(s.orgUnits, caller, ou, d);
  }

  /** Assigning a member again is refused and changes nothing. */
  lemma AssignAlreadyMember(s: Store, caller: Id, target: Id, ou: string, d: string)
    requires StoredRole(s.users, caller) == Some(Admin) && IsMember(s.orgUnits, caller, ou, d)
    requires IsMember(s.orgUnits, target, ou, d)
    ensures AssignSpec(s, caller, target, ou, d) == Reply(Failed(AlreadyAssigned), s)
  {
    ScopedRowsIffMember(s.orgUnits, caller, ou, d);
    ScopedRowsIffMember(s.orgUnits, target, ou, d);
  }

  /** Unassigning a non-member is refused and changes nothing. */
  lemma UnassignNotMember(s: Store, caller: Id, target: Id, ou: string, d: string)
    requires StoredRole(s.users, caller) == Some(Admin) && IsMember(s.orgUnits, caller, ou, d)
    requires !IsMember(s.orgUnits, target, ou, d)
    ensures UnassignSpec(s, caller, target, ou, d) == Reply(Failed(NotAssigned), s)
  {
    ScopedRowsIffMember(s.orgUnits, caller, ou, d);
    ScopedRowsIffMember(s.orgUnits, target, ou, d);
  }

  // ---------------------------------------------------------------------------
  // The two writes on the org graph

  lemma PushKeepsMembers(ous: seq<OrgUnit>, i: nat, j: nat, u: Id, x: Id, ou: string, d: string)
    requires i < |ous| && j < |ous[i].divisions|
    requires IsMember(ous, x, ou, d)
    ensures IsMember(PushMember(ous, i, j, u), x, ou, d)
  {
    var r := PushMember(ous, i, j, u);
    var a, b :| 0 <= a < |ous| && 0 <= b < |ous[a].divisions| &&
      ous[a].name == ou && ous[a].divisions[b].name == d && x in ous[a].divisions[b].users;
    assert x in r[a].divisions[b].users;
  }

  lemma PushMakesMember(ous: seq<OrgUnit>, i: nat, j: nat, u: Id, ou: string, d: string)
    requires i < |ous| && j < |ous[i].divisions| && ous[i].name == ou && ous[i].divisions[j].name == d
    ensures IsMember(PushMember(ous, i, j, u), u, ou, d)
  {
    assert u in PushMember(ous, i, j, u)[i].divisions[j].users;
  }

  lemma PushKeepsNoDup(ous: seq<OrgUnit>, i: nat, j: nat, u: Id)
    requires i < |ous| && j < |ous[i].divisions| && u !in ous[i].divisions[j].users
    requires NoDupMembers(ous)
    ensures NoDupMembers(PushMember(ous, i, j, u))
  {
    var r := PushMember(ous, i, j, u);
    var xs := ous[i].divisions[j].users;
    assert NoDup(xs + [u]) by {
      forall a, b | 0 <= a < b < |xs + [u]| ensures (xs + [u])[a] != (xs + [u])[b] {
        if b == |xs| { assert (xs + [u])[a] == xs[a]; }
      }
    }
    forall a, b | 0 <= a < |r| && 0 <= b < |r[a].divisions| ensures NoDup(r[a].divisions[b].users) {
      if a != i || b != j {
        assert r[a].divisions[b] == ous[a].divisions[b];
      }
    }
  }

  lemma PullKeepsNoDup(ous: seq<OrgUnit>, i: nat, j: nat, u: Id)
    requires i < |ous| && j < |ous[i].divisions|
    requires NoDupMembers(ous)
    ensures NoDupMembers(PullMember(ous, i, j, u))
  {
    var r := PullMember(ous, i, j, u);
    forall a, b | 0 <= a < |r| && 0 <= b < |r[a].divisions| ensures NoDup(r[a].divisions[b].users) {
      if a != i || b != j {
        assert r[a].divisions[b] == ous[a].divisions[b];
      }
    }
  }

  /** Under unique keys, pulling `u` out of the division named `(ou, d)` ends its membership there. */
  lemma PullRemovesMember(ous: seq<OrgUnit>, i: nat, j: nat, u: Id, ou: string, d: string)
    requires UniqueKeys(ous)
    requires i < |ous| && j < |ous[i].divisions| && ous[i].name == ou && ous[i].divisions[j].name == d
    ensures !IsMember(PullMember(ous, i, j, u), u, ou, d)
  {
    var dv := ous[i].divisions[j];
    var r := PullMember(ous, i, j, u);
    WithDivisionSameNames(ous, i, j, dv.(users := Without(dv.users, u)));
    forall a, b | 0 <= a < |r| && 0 <= b < |r[a].divisions| && r[a].name == ou && r[a].divisions[b].name == d
      ensures u !in r[a].divisions[b].users
    {
      assert ous[a].name == ou && ous[a].divisions[b].name == d;
      assert a == i && b == j;
    }
  }

  /** A user who was not a member of `(ou, d)` and is pushed into one `(ou, d)` division is
      listed in no other `(ou, d)` division, so a pull of that user resolves to it. */
  lemma PushedIsLocated(ous: seq<OrgUnit>, i: nat, j: nat, u: Id, ou: string, d: string)
    requires !IsMember(ous, u, ou, d)
    requires i < |ous| && j < |ous[i].divisions| && ous[i].name == ou && ous[i].divisions[j].name == d
    ensures Locate(PushMember(ous, i, j, u), ou, d, Some(u)) == Some((i, j))
  {
    var dv := ous[i].divisions[j];
    var ous1 := PushMember(ous, i, j, u);
    assert u in ous1[i].divisions[j].users;
    assert Hosts(ous1[i], ou, d, Some(u));
    var p := Locate(ous1, ou, d, Some(u)).value;
    assert ous1[p.0].divisions[p.1].name == d && u in ous1[p.0].divisions[p.1].users;
    PushedListedOnlyThere(ous, i, j, u, ou, d, p.0, p.1);
  }

  /** After the push, a `(ou, d)` division listing `u` is the pushed one, unless `u` was a member before. */
  lemma PushedListedOnlyThere(ous: seq<OrgUnit>, i: nat, j: nat, u: Id, ou: string, d: string, a: nat, b: nat)
    requires i < |ous| && j < |ous[i].divisions| && a < |ous| && b < |ous[a].divisions|
    requires ous[a].name == ou && ous[a].divisions[b].name == d
    requires u in PushMember(ous, i, j, u)[a].divisions[b].users
    ensures (a == i && b == j) || IsMember(ous, u, ou, d)
  {
    if a != i || b != j {
      assert PushMember(ous, i, j, u)[a].divisions[b] == ous[a].divisions[b];
    }
  }

  lemma WithoutAppended(xs: seq<Id>, x: Id)
    requires x !in xs
    ensures Without(xs + [x], x) == xs
  {
    if xs == [] {
      assert [] + [x] == [x];
    } else {
      assert (xs + [x])[1..] == xs[1..] + [x];
      WithoutAppended(xs[1..], x);
      assert xs == [xs[0]] + xs[1..];
    }
  }

  // ---------------------------------------------------------------------------
  // When the toggles succeed, and what they write

  /** assignDivision succeeds exactly for an admin caller who is a member of `(ou, d)`
      assigning a target who is not. */
  lemma AssignDoneIff(s: Store, caller: Id, target: Id, ou: string, d: string)
    ensures AssignSpec(s, caller, target, ou, d).status == Done <==>
      StoredRole(s.users, caller) == Some(Admin) && IsMember(s.orgUnits, caller, ou, d) &&
      !IsMember(s.orgUnits, target, ou, d)
  {
    ScopedRowsIffMember(s.orgUnits, caller, ou, d);
    ScopedRowsIffMember(s.orgUnits, target, ou, d);
  }

  /** unassignDivision succeeds exactly for an admin caller who is a member of `(ou, d)`
      unassigning a target who is one too. */
  lemma UnassignDoneIff(s: Store, caller: Id, target: Id, ou: string, d: string)
    ensures UnassignSpec(s, caller, target, ou, d).status == Done <==>
      StoredRole(s.users, caller) == Some(Admin) && IsMember(s.orgUnits, caller, ou, d) &&
      IsMember(s.orgUnits, target, ou, d)
  {
    ScopedRowsIffMember(s.orgUnits, caller, ou, d);
    ScopedRowsIffMember(s.orgUnits, target, ou, d);
  }

  /** Where a successful assignment pushed the target: the first division named `(ou, d)`,
      which did not list the target before. */
  lemma AssignedDivision(s: Store, caller: Id, target: Id, ou: string, d: string)
    requires AssignSpec(s, caller, target, ou, d).status == Done
    ensures Locate(s.orgUnits, ou, d, None).Some?
    ensures var p := Locate(s.orgUnits, ou, d, None).value;
      && s.orgUnits[p.0].name == ou && s.orgUnits[p.0].divisions[p.1].name == d
      && target !in s.orgUnits[p.0].divisions[p.1].users
      && AssignSpec(s, caller, target, ou, d) == Reply(Done, s.(orgUnits := PushMember(s.orgUnits, p.0, p.1, target)))
  {
    var ous := s.orgUnits;
    assert |Scope(Rows(ous, caller), ou, d)| > 0 && |Scope(Rows(ous, target), ou, d)| == 0;
    ScopedRowsIffMember(ous, caller, ou, d);
    ScopedRowsIffMember(ous, target, ou, d);
    MemberIsLocated(ous, caller, ou, d);
    var p := Locate(ous, ou, d, None).value;
    assert Selects(ous[p.0].divisions[p.1], d, None);
  }

  /** Where a successful unassignment pulled the target from: the first division named
      `(ou, d)` that lists the target. */
  lemma UnassignedDivision(s: Store, caller: Id, target: Id, ou: string, d: string)
    requires UnassignSpec(s, caller, target, ou, d).status == Done
    ensures Locate(s.orgUnits, ou, d, Some(target)).Some?
    ensures var p := Locate(s.orgUnits, ou, d, Some(target)).value;
      && s.orgUnits[p.0].name == ou && s.orgUnits[p.0].divisions[p.1].name == d
      && target in s.orgUnits[p.0].divisions[p.1].users
      && UnassignSpec(s, caller, target, ou, d) == Reply(Done, s.(orgUnits := PullMember(s.orgUnits, p.0, p.1, target)))
  {
    var ous := s.orgUnits;
    assert |Scope(Rows(ous, target), ou, d)| > 0;
    ScopedRowsIffMember(ous, target, ou, d);
    MemberIsLocated(ous, target, ou, d);
    var p := Locate(ous, ou, d, Some(target)).value;
    assert Selects(ous[p.0].divisions[p.1], d, Some(target));
  }

  /** A successful assignment appends the target to exactly one division named `(ou, d)`;
      the target is a member afterwards, nothing else changes, and a store whose divisions
      list no member twice still lists no member twice. */
  lemma AssignEffect(s: Store, caller: Id, target: Id, ou: string, d: string)
    requires StoredRole(s.users, caller) == Some(Admin) && IsMember(s.orgUnits, caller, ou, d)
    requires !IsMember(s.orgUnits, target, ou, d)
    ensures var r := AssignSpec(s, caller, target, ou, d);
      && r.status == Done
      && r.store.users == s.users
      && (exists i, j ::
            0 <= i < |s.orgUnits| && 0 <= j < |s.orgUnits[i].divisions| &&
            s.orgUnits[i].name == ou && s.orgUnits[i].divisions[j].name == d &&
            r.store.orgUnits == WithDivision(s.orgUnits, i, j,
              s.orgUnits[i].divisions[j].(users := s.orgUnits[i].divisions[j].users + [target])))
      && IsMember(r.store.orgUnits, target, ou, d)
      && (NoDupMembers(s.orgUnits) ==> NoDupMembers(r.store.orgUnits))
  {
    AssignDoneIff(s, caller, target, ou, d);
    AssignedDivision(s, caller, target, ou, d);
    var p := Locate(s.orgUnits, ou, d, None).value;
    PushMakesMember(s.orgUnits, p.0, p.1, target, ou, d);
    if NoDupMembers(s.orgUnits) {
      PushKeepsNoDup(s.orgUnits, p.0, p.1, target);
    }
  }

  /** A successful unassignment pulls every occurrence of the target out of one division
      named `(ou, d)` that lists it, keeping the other ids in order; nothing else changes.
      When no two divisions share that key, the target is no longer a member. */
  lemma UnassignEffect(s: Store, caller: Id, target: Id, ou: string, d: string)
    requires StoredRole(s.users, caller) == Some(Admin) && IsMember(s.orgUnits, caller, ou, d)
    requires IsMember(s.orgUnits, target, ou, d)
    ensures var r := UnassignSpec(s, caller, target, ou, d);
      && r.status == Done
      && r.store.users == s.users
      && (exists i, j ::
            0 <= i < |s.orgUnits| && 0 <= j < |s.orgUnits[i].divisions| &&
            s.orgUnits[i].name == ou && s.orgUnits[i].divisions[j].name == d &&
            target in s.orgUnits[i].divisions[j].users &&
            r.store.orgUnits == WithDivision(s.orgUnits, i, j,
              s.orgUnits[i].divisions[j].(users := Without(s.orgUnits[i].divisions[j].users, target))))
      && (NoDupMembers(s.orgUnits) ==> NoDupMembers(r.store.orgUnits))
      && (UniqueKeys(s.orgUnits) ==> !IsMember(r.store.orgUnits, target, ou, d))
  {
    UnassignDoneIff(s, caller, target, ou, d);
    UnassignedDivision(s, caller, target, ou, d);
    var p := Locate(s.orgUnits, ou, d, Some(target)).value;
    if NoDupMembers(s.orgUnits) {
      PullKeepsNoDup(s.orgUnits, p.0, p.1, target);
    }
    if UniqueKeys(s.orgUnits) {
      PullRemovesMember(s.orgUnits, p.0, p.1, target, ou, d);
    }
  }

  /** Repeating a successful assignment is refused as already assigned (idempotent failure). */
  lemma AssignTwice(s: Store, caller: Id, target: Id, ou: string, d: string)
    requires AssignSpec(s, caller, target, ou, d).status == Done
    ensures var s1 := AssignSpec(s, caller, target, ou, d).store;
      AssignSpec(s1, caller, target, ou, d) == Reply(Failed(AlreadyAssigned), s1)
  {
    AssignDoneIff(s, caller, target, ou, d);
    AssignedDivision(s, caller, target, ou, d);
    var p := Locate(s.orgUnits, ou, d, None).value;
    var s1 := s.(orgUnits := PushMember(s.orgUnits, p.0, p.1, target));
    PushKeepsMembers(s.orgUnits, p.0, p.1, target, caller, ou, d);
    PushMakesMember(s.orgUnits, p.0, p.1, target, ou, d);
    AssignAlreadyMember(s1, caller, target, ou, d);
  }

  /** Unassigning a user right after assigning them restores the store. */
  lemma AssignThenUnassign(s: Store, caller: Id, target: Id, ou: string, d: string)
    requires AssignSpec(s, caller, target, ou, d).status == Done
    ensures var s1 := AssignSpec(s, caller, target, ou, d).store;
      UnassignSpec(s1, caller, target, ou, d) == Reply(Done, s)
  {
    AssignDoneIff(s, caller, target, ou, d);
    AssignedDivision(s, caller, target, ou, d);
    var p := Locate(s.orgUnits, ou, d, None).value;
    var dv := s.orgUnits[p.0].divisions[p.1];
    var s1 := s.(orgUnits := PushMember(s.orgUnits, p.0, p.1, target));
    PushKeepsMembers(s.orgUnits, p.0, p.1, target, caller, ou, d);
    PushMakesMember(s.orgUnits, p.0, p.1, target, ou, d);
    UnassignDoneIff(s1, caller, target, ou, d);
    UnassignedDivision(s1, caller, target, ou, d);
    PushedIsLocated(s.orgUnits, p.0, p.1, target, ou, d);
    WithoutAppended(dv.users, target);
    WithDivisionRestore(s.orgUnits, p.0, p.1, dv.(users := dv.users + [target]));
    assert PullMember(s1.orgUnits, p.0, p.1, target) == s.orgUnits;
  }
}
