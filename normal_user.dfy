/** The handlers open to every valid role: listing the credentials of the caller's
    divisions, and adding a credential to a division the caller belongs to. */
module NormalUser {
  import opened Vault
  import opened Aggregate

  /** A division as viewCredentials shows it: its name and its accounts. */
  datatype DivisionView = DivisionView(name: string, accounts: seq<Credential>)

  function ViewOf(dv: Division): DivisionView {
    DivisionView(dv.name, dv.accounts)
  }

  // ---------------------------------------------------------------------------
  // viewCredentials

  /** The caller's org units, each with the divisions listing the caller, grouped by org-unit id. */
  function ViewCredentials(s: Store, caller: Id): Result<seq<Entry<DivisionView>>>
  {
    match StoredRole(s.users, caller)
    case None => Err(ServerError)
    case Some(role) =>
      if !IsValidRole(role) then Err(Forbidden(RoleGate))
      else Ok(Group(Rows(s.orgUnits, caller), ViewOf))
  }

  /** A caller whose role is not one of the three sees nothing. */
  lemma ViewRoleGate(s: Store, caller: Id)
    ensures ViewCredentials(s, caller).Ok? <==>
      StoredRole(s.users, caller).Some? && IsValidRole(StoredRole(s.users, caller).value)
    ensures StoredRole(s.users, caller).None? ==> ViewCredentials(s, caller) == Err(ServerError)
  {
  }

  /** Soundness of the listing: every entry is one org unit, under its own id and name, and
      every division shown in it lists the caller. */
  lemma ViewShowsOnlyMemberDivisions(s: Store, caller: Id, k: nat)
    requires UniqueUnitIds(s.orgUnits)
    requires ViewCredentials(s, caller).Ok? && k < |ViewCredentials(s, caller).value|
    ensures var e := ViewCredentials(s, caller).value[k];
      && e.items != []
      && exists i ::
           0 <= i < |s.orgUnits| && e.id == s.orgUnits[i].id && e.name == s.orgUnits[i].name &&
           forall v :: v in e.items ==>
             exists j ::
               0 <= j < |s.orgUnits[i].divisions| && caller in s.orgUnits[i].divisions[j].users &&
               v == ViewOf(s.orgUnits[i].divisions[j])
  {
    GroupMatchesDirect(s.orgUnits, caller, ViewOf);
    DirectSound(s.orgUnits, caller, ViewOf, k);
    var e := Direct(s.orgUnits, caller, ViewOf)[k];
    var i :| 0 <= i < |s.orgUnits| && e == Entry(s.orgUnits[i].id, s.orgUnits[i].name, Items(s.orgUnits[i].divisions, caller, ViewOf));
    ItemsMembers(s.orgUnits[i].divisions, caller, ViewOf);
  }

  /** Completeness of the listing: every division listing the caller is shown, inside the
      entry of its own org unit. */
  lemma ViewShowsEveryMemberDivision(s: Store, caller: Id, i: nat, j: nat)
    requires UniqueUnitIds(s.orgUnits) && ViewCredentials(s, caller).Ok?
    requires i < |s.orgUnits| && j < |s.orgUnits[i].divisions| && caller in s.orgUnits[i].divisions[j].users
    ensures exists k ::
      0 <= k < |ViewCredentials(s, caller).value| &&
      ViewCredentials(s, caller).value[k].id == s.orgUnits[i].id &&
      ViewCredentials(s, caller).value[k].name == s.orgUnits[i].name &&
      ViewOf(s.orgUnits[i].divisions[j]) in ViewCredentials(s, caller).value[k].items
  {
    var ous := s.orgUnits;
    GroupMatchesDirect(ous, caller, ViewOf);
    ItemsComplete(ous[i].divisions, caller, ViewOf, j);
    DirectComplete(ous, caller, ViewOf, i);
    var k :| 0 <= k < |Direct(ous, caller, ViewOf)| && Direct(ous, caller, ViewOf)[k].id == ous[i].id;
    DirectSound(ous, caller, ViewOf, k);
    var i' :| 0 <= i' < |ous| &&
      Direct(ous, caller, ViewOf)[k] == Entry(ous[i'].id, ous[i'].name, Items(ous[i'].divisions, caller, ViewOf));
    assert i' == i;
  }

  /** No org unit appears twice in the listing, and when no division lists a member twice,
      each division listing the caller is shown exactly once. */
  lemma ViewGroupsByOrgUnit(s: Store, caller: Id)
    requires UniqueUnitIds(s.orgUnits) && ViewCredentials(s, caller).Ok?
    ensures var es := ViewCredentials(s, caller).value;
      && (forall a, b :: 0 <= a < b < |es| ==> es[a].id != es[b].id)
      && (NoDupMembers(s.orgUnits) ==> forall k :: 0 <= k < |es| ==>
           exists i :: 0 <= i < |s.orgUnits| && es[k] == Entry(s.orgUnits[i].id, s.orgUnits[i].name, MemberItems(s.orgUnits[i].divisions, caller, ViewOf)))
  {
    var ous := s.orgUnits;
    GroupMatchesDirect(ous, caller, ViewOf);
    DirectDistinct(ous, caller, ViewOf);
    var es := Direct(ous, caller, ViewOf);
    forall k | NoDupMembers(ous) && 0 <= k < |es|
      ensures exists i :: 0 <= i < |ous| && es[k] == Entry(ous[i].id, ous[i].name, MemberItems(ous[i].divisions, caller, ViewOf))
    {
      DirectSound(ous, caller, ViewOf, k);
      var i :| 0 <= i < |ous| && es[k] == Entry(ous[i].id, ous[i].name, Items(ous[i].divisions, caller, ViewOf));
      ItemsWithoutDuplicates(ous[i].divisions, caller, ViewOf);
    }
  }

  // ---------------------------------------------------------------------------
  // addCredential

  /** `$push: {'divisions.$.accounts': c}` on division `j` of org unit `i`. */
  function AppendAccount(ous: seq<OrgUnit>, i: nat, j: nat, c: Credential): seq<OrgUnit>
    requires i < |ous| && j < |ous[i].divisions|
  {
    var dv := ous[i].divisions[j];
    WithDivision(ous, i, j, dv.(accounts := dv.accounts + [c]))
  }

  /** Role gate, membership gate, duplicate (name, username) scan, then `$push` of the account. */
  function AddCredentialSpec(s: Store, caller: Id, ou: string, d: string, name: string, username: string, password: string): Reply
  {
    match StoredRole(s.users, caller)
    case None => Reply(Failed(ServerError), s)
    case Some(role) =>
      if !IsValidRole(role) then Reply(Failed(Forbidden(RoleGate)), s)
      else
        var result := Scope(Rows(s.orgUnits, caller), ou, d);
        if |result| == 0 then Reply(Failed(Forbidden(MembershipGate)), s)
        else if RowsHoldPair(result, name, username) then Reply(Failed(DuplicateCredential), s)
        else match Locate(s.orgUnits, ou, d, None)
          case None => Reply(Done, s)
          case Some(p) => Reply(Done, s.(orgUnits := AppendAccount(s.orgUnits, p.0, p.1, Credential(name, username, password))))
  }

  /** The nested scan of the gate's rows for an account with this name and username. */
  method AccountExists(rows: seq<Row>, name: string, username: string) returns (found: bool)
    ensures found <==> RowsHoldPair(rows, name, username)
  {
    found := false;
    var i := 0;
    while i < |rows|
      invariant 0 <= i <= |rows|
      invariant found <==> exists a, k ::
        0 <= a < i && 0 <= k < |rows[a].division.accounts| &&
        rows[a].division.accounts[k].name == name && rows[a].division.accounts[k].username == username
    {
      var accounts := rows[i].division.accounts;
      var j := 0;
      while j < |accounts|
        invariant 0 <= j <= |accounts|
        invariant found <==>
          (exists a, k :: 0 <= a < i && 0 <= k < |rows[a].division.accounts| &&
             rows[a].division.accounts[k].name == name && rows[a].division.accounts[k].username == username) ||
          (exists k :: 0 <= k < j && accounts[k].name == name && accounts[k].username == username)
      {
        if name == accounts[j].name && username == accounts[j].username {
          found := true;
        }
        j := j + 1;
      }
      i := i + 1;
    }
  }

  method AddCredential(db: Database, caller: Id, ou: string, d: string, name: string, username: string, password: string)
    returns (st: Status)
    modifies db
    ensures Reply(st, db.Snapshot()) == AddCredentialSpec(old(db.Snapshot()), caller, ou, d, name, username, password)
  {
    var userResult := FindUser(db.users, caller);
    if userResult.None? {
      return Failed(ServerError);
    }
    var userRole := userResult.value.role;
    if !(userRole == Normal || userRole == Management || userRole == Admin) {
      return Failed(Forbidden(RoleGate));
    }
    var result := Scope(Rows(db.orgUnits, caller), ou, d);
    if |result| <= 0 {
      return Failed(Forbidden(MembershipGate));
    }
    var accountAlreadyExists := AccountExists(result, name, username);
    if accountAlreadyExists {
      return Failed(DuplicateCredential);
    }
    var at := Locate(db.orgUnits, ou, d, None);
    if at.Some? {
      db.orgUnits := AppendAccount(db.orgUnits, at.value.0, at.value.1, Credential(name, username, password));
    }
    return Done;
  }

  // ---------------------------------------------------------------------------
  // Properties of addCredential

  /** Every rejection leaves the store as it was. */
  lemma AddFailureChangesNothing(s: Store, caller: Id, ou: string, d: string, name: string, username: string, password: string)
    requires AddCredentialSpec(s, caller, ou, d, name, username, password).status.Failed?
    ensures AddCredentialSpec(s, caller, ou, d, name, username, password).store == s
  {
  }

  /** The gates in order: a missing caller, an invalid role, then a caller outside `(ou, d)`. */
  lemma AddGates(s: Store, caller: Id, ou: string, d: string, name: string, username: string, password: string)
    ensures var st := AddCredentialSpec(s, caller, ou, d, name, username, password).status;
      && (StoredRole(s.users, caller).None? ==> st == Failed(ServerError))
      && (StoredRole(s.users, caller).Some? && !IsValidRole(StoredRole(s.users, caller).value) ==> st == Failed(Forbidden(RoleGate)))
      && (StoredRole(s.users, caller).Some? && IsValidRole(StoredRole(s.users, caller).value) ==>
            (st == Failed(Forbidden(MembershipGate)) <==> !IsMember(s.orgUnits, caller, ou, d)))
  {
    ScopedRowsIffMember(s.orgUnits, caller, ou, d);
  }

  /** A member with a valid role is refused as a duplicate exactly when one of the caller's
      divisions `(ou, d)` already holds an account with that name and username. */
  lemma AddDuplicateIff(s: Store, caller: Id, ou: string, d: string, name: string, username: string, password: string)
    requires StoredRole(s.users, caller).Some? && IsValidRole(StoredRole(s.users, caller).value)
    requires IsMember(s.orgUnits, caller, ou, d)
    ensures AddCredentialSpec(s, caller, ou, d, name, username, password).status == Failed(DuplicateCredential) <==>
      MemberDivisionHoldsPair(s.orgUnits, caller, ou, d, name, username)
  {
    ScopedRowsIffMember(s.orgUnits, caller, ou, d);
    ScopedPairIff(s.orgUnits, caller, ou, d, name, username);
  }

  /** The duplicate check looks at name and username only: the password never decides the answer. */
  lemma AddIgnoresPassword(s: Store, caller: Id, ou: string, d: string, name: string, username: string, p1: string, p2: string)
    ensures AddCredentialSpec(s, caller, ou, d, name, username, p1).status ==
            AddCredentialSpec(s, caller, ou, d, name, username, p2).status
  {
  }

  /** A successful addition appends the credential, password included, to the end of the
      accounts of one division named `(ou, d)`, and changes nothing else. */
  lemma AddEffect(s: Store, caller: Id, ou: string, d: string, name: string, username: string, password: string)
    requires StoredRole(s.users, caller).Some? && IsValidRole(StoredRole(s.users, caller).value)
    requires IsMember(s.orgUnits, caller, ou, d) && !MemberDivisionHoldsPair(s.orgUnits, caller, ou, d, name, username)
    ensures var r := AddCredentialSpec(s, caller, ou, d, name, username, password);
      && r.status == Done
      && r.store.users == s.users
      && exists i, j ::
           0 <= i < |s.orgUnits| && 0 <= j < |s.orgUnits[i].divisions| &&
           s.orgUnits[i].name == ou && s.orgUnits[i].divisions[j].name == d &&
           r.store.orgUnits == WithDivision(s.orgUnits, i, j,
             s.orgUnits[i].divisions[j].(accounts := s.orgUnits[i].divisions[j].accounts + [Credential(name, username, password)]))
  {
    AddDuplicateIff(s, caller, ou, d, name, username, password);
    ScopedRowsIffMember(s.orgUnits, caller, ou, d);
    MemberIsLocated(s.orgUnits, caller, ou, d);
  }

  /** When division keys are unique, adding a credential keeps every division free of two
      accounts sharing name and username, and the caller's division now holds the pair. */
  lemma AddKeepsPairsUnique(s: Store, caller: Id, ou: string, d: string, name: string, username: string, password: string)
    requires UniqueKeys(s.orgUnits) && AllPairsUnique(s.orgUnits)
    ensures AllPairsUnique(AddCredentialSpec(s, caller, ou, d, name, username, password).store.orgUnits)
  {
    var r := AddCredentialSpec(s, caller, ou, d, name, username, password);
    if r.status == Done {
      AddedDivision(s, caller, ou, d, name, username, password);
      ScopedPairIff(s.orgUnits, caller, ou, d, name, username);
      var p := Locate(s.orgUnits, ou, d, None).value;
      LocatedIsMemberDivision(s.orgUnits, caller, ou, d, None);
      var dv := s.orgUnits[p.0].divisions[p.1];
      assert Selects(dv, d, None);
      DivisionLacksPair(s.orgUnits, caller, ou, d, name, username, p.0, p.1);
      var c := Credential(name, username, password);
      AppendKeepsPairsUnique(dv.accounts, c);
      WithDivisionKeepsPairsUnique(s.orgUnits, p.0, p.1, dv.(accounts := dv.accounts + [c]));
    }
  }

  /** Appending an account whose pair no account holds keeps the pairs distinct. */
  lemma AppendKeepsPairsUnique(acc: seq<Credential>, c: Credential)
    requires PairsUnique(acc)
    requires forall k :: 0 <= k < |acc| ==> acc[k].name != c.name || acc[k].username != c.username
    ensures PairsUnique(acc + [c])
  {
    forall a, b | 0 <= a < b < |acc + [c]|
      ensures (acc + [c])[a].name != (acc + [c])[b].name || (acc + [c])[a].username != (acc + [c])[b].username
    {
      if b < |acc| {
        assert (acc + [c])[a] == acc[a] && (acc + [c])[b] == acc[b];
      } else {
        assert (acc + [c])[a] == acc[a] && (acc + [c])[b] == c;
      }
    }
  }


  /** Where a successful addition put the credential: the first division named `(ou, d)`. */
  lemma AddedDivision(s: Store, caller: Id, ou: string, d: string, name: string, username: string, password: string)
    requires AddCredentialSpec(s, caller, ou, d, name, username, password).status == Done
    ensures IsMember(s.orgUnits, caller, ou, d) && Locate(s.orgUnits, ou, d, None).Some?
    ensures var p := Locate(s.orgUnits, ou, d, None).value;
      AddCredentialSpec(s, caller, ou, d, name, username, password) ==
        Reply(Done, s.(orgUnits := AppendAccount(s.orgUnits, p.0, p.1, Credential(name, username, password))))
  {
    var result := Scope(Rows(s.orgUnits, caller), ou, d);
    assert |result| != 0 && !RowsHoldPair(result, name, username);
    ScopedRowsIffMember(s.orgUnits, caller, ou, d);
    MemberIsLocated(s.orgUnits, caller, ou, d);
  }

  /** Appending an account to a division `u` belongs to makes that division hold the pair. */
  lemma AppendedPairHeld(ous: seq<OrgUnit>, i: nat, j: nat, c: Credential, u: Id, ou: string, d: string)
    requires i < |ous| && j < |ous[i].divisions| && ous[i].name == ou && ous[i].divisions[j].name == d
    requires u in ous[i].divisions[j].users
    ensures IsMember(AppendAccount(ous, i, j, c), u, ou, d)
    ensures MemberDivisionHoldsPair(AppendAccount(ous, i, j, c), u, ou, d, c.name, c.username)
  {
    var ous1 := AppendAccount(ous, i, j, c);
    var acc := ous[i].divisions[j].accounts;
    assert ous1[i].divisions[j].accounts == acc + [c];
    assert ous1[i].divisions[j].accounts[|acc|] == c;
  }

  /** When division keys are unique, adding the same name and username again, with any
      password, is refused as a duplicate. */
  lemma AddTwice(s: Store, caller: Id, ou: string, d: string, name: string, username: string, p1: string, p2: string)
    requires UniqueKeys(s.orgUnits)
    requires AddCredentialSpec(s, caller, ou, d, name, username, p1).status == Done
    ensures var s1 := AddCredentialSpec(s, caller, ou, d, name, username, p1).store;
      AddCredentialSpec(s1, caller, ou, d, name, username, p2) == Reply(Failed(DuplicateCredential), s1)
  {
    AddedDivision(s, caller, ou, d, name, username, p1);
    LocatedIsMemberDivision(s.orgUnits, caller, ou, d, None);
    var p := Locate(s.orgUnits, ou, d, None).value;
    var s1 := s.(orgUnits := AppendAccount(s.orgUnits, p.0, p.1, Credential(name, username, p1)));
    assert AddCredentialSpec(s, caller, ou, d, name, username, p1).store == s1;
    AppendedPairHeld(s.orgUnits, p.0, p.1, Credential(name, username, p1), caller, ou, d);
    assert StoredRole(s.users, caller).Some? && IsValidRole(StoredRole(s.users, caller).value);
    assert s1.users == s.users;
    AddDuplicateIff(s1, caller, ou, d, name, username, p2);
    AddFailureChangesNothing(s1, caller, ou, d, name, username, p2);
  }
}
