/** The read-only listings: the caller's own profile with the org units and
    divisions they belong to, and the same profile for every user in the directory. */
module Log {
  import opened Vault
  import opened Aggregate

  /** A user's details (never the password digest) with their org units, each carrying the
      names of the divisions that list the user. */
  datatype Profile = Profile(id: Id, username: string, role: string, units: seq<Entry<string>>)

  function DivisionName(dv: Division): string {
    dv.name
  }

  /** The grouped pipeline projecting division names. */
  function UnitsOf(ous: seq<OrgUnit>, u: Id): seq<Entry<string>> {
    Group(Rows(ous, u), DivisionName)
  }

  function ProfileOf(ous: seq<OrgUnit>, usr: User): Profile {
    Profile(usr.id, usr.username, usr.role, UnitsOf(ous, usr.id))
  }

  /** getOrgUnitsAndDivisions: no role check; a caller missing from the directory is a server error. */
  function GetOrgUnitsAndDivisions(s: Store, caller: Id): Result<Profile>
  {
    match FindUser(s.users, caller)
    case None => Err(ServerError)
    case Some(usr) => Ok(Profile(caller, usr.username, usr.role, UnitsOf(s.orgUnits, caller)))
  }

  /** getAllUsers: the caller lookup sits outside the inner handler, so a missing caller is
      answered as a bad token; any valid role may list every user with their memberships. */
  method GetAllUsers(s: Store, caller: Id) returns (r: Result<seq<Profile>>)
    ensures FindUser(s.users, caller).None? ==> r == Err(BadJWT)
    ensures FindUser(s.users, caller).Some? && !IsValidRole(FindUser(s.users, caller).value.role) ==>
      r == Err(Forbidden(RoleGate))
    ensures FindUser(s.users, caller).Some? && IsValidRole(FindUser(s.users, caller).value.role) ==>
      r.Ok? && |r.value| == |s.users| &&
      forall k :: 0 <= k < |s.users| ==> r.value[k] == ProfileOf(s.orgUnits, s.users[k])
  {
    var userResult := FindUser(s.users, caller);
    if userResult.None? {
      return Err(BadJWT);
    }
    var role := userResult.value.role;
    if !(role == Normal || role == Management || role == Admin) {
      return Err(Forbidden(RoleGate));
    }
    var result: seq<Profile> := [];
    var usersResult := s.users;
    for i := 0 to |usersResult|
      invariant |result| == i
      invariant forall k :: 0 <= k < i ==> result[k] == ProfileOf(s.orgUnits, usersResult[k])
    {
      var userId := usersResult[i].id;
      var orgsResult := Group(Rows(s.orgUnits, userId), DivisionName);
      result := result + [Profile(userId, usersResult[i].username, usersResult[i].role, orgsResult)];
    }
    return Ok(result);
  }

  // ---------------------------------------------------------------------------
  // Properties

  /** Every caller on record gets their profile, whatever their role, with the stored
      username and role. */
  lemma ProfileForAnyRole(s: Store, caller: Id)
    ensures GetOrgUnitsAndDivisions(s, caller).Ok? <==> exists k :: 0 <= k < |s.users| && s.users[k].id == caller
    ensures GetOrgUnitsAndDivisions(s, caller).Ok? ==>
      var p := GetOrgUnitsAndDivisions(s, caller).value;
      p.id == caller && Some(p.role) == StoredRole(s.users, caller) &&
      p.username == s.users[UserIndex(s.users, caller).value].username
  {
    if exists k :: 0 <= k < |s.users| && s.users[k].id == caller {
      var k :| 0 <= k < |s.users| && s.users[k].id == caller;
      assert UserIndex(s.users, caller).Some?;
    }
  }

  /** Each listed org unit is one of the store's, under its own id and name, and carries the
      names of its divisions that list `u`, once for each listing. */
  lemma UnitsSound(ous: seq<OrgUnit>, u: Id, k: nat)
    requires UniqueUnitIds(ous) && k < |UnitsOf(ous, u)|
    ensures UnitsOf(ous, u)[k].items != []
    ensures exists i ::
      0 <= i < |ous| && UnitsOf(ous, u)[k] == Entry(ous[i].id, ous[i].name, Items(ous[i].divisions, u, DivisionName))
    ensures NoDupMembers(ous) ==> exists i ::
      0 <= i < |ous| && UnitsOf(ous, u)[k] == Entry(ous[i].id, ous[i].name, MemberItems(ous[i].divisions, u, DivisionName))
  {
    GroupMatchesDirect(ous, u, DivisionName);
    DirectSound(ous, u, DivisionName, k);
    var i :| 0 <= i < |ous| && UnitsOf(ous, u)[k] == Entry(ous[i].id, ous[i].name, Items(ous[i].divisions, u, DivisionName));
    if NoDupMembers(ous) {
      ItemsWithoutDuplicates(ous[i].divisions, u, DivisionName);
    }
  }

  /** Every division that lists `u` shows up by name, under its org unit, which is listed once. */
  lemma UnitsComplete(ous: seq<OrgUnit>, u: Id, i: nat, j: nat)
    requires UniqueUnitIds(ous)
    requires i < |ous| && j < |ous[i].divisions| && u in ous[i].divisions[j].users
    ensures exists k ::
      0 <= k < |UnitsOf(ous, u)| && UnitsOf(ous, u)[k].id == ous[i].id && UnitsOf(ous, u)[k].name == ous[i].name &&
      ous[i].divisions[j].name in UnitsOf(ous, u)[k].items
    ensures forall a, b :: 0 <= a < b < |UnitsOf(ous, u)| ==> UnitsOf(ous, u)[a].id != UnitsOf(ous, u)[b].id
  {
    GroupMatchesDirect(ous, u, DivisionName);
    DirectDistinct(ous, u, DivisionName);
    ItemsComplete(ous[i].divisions, u, DivisionName, j);
    DirectComplete(ous, u, DivisionName, i);
    var k :| 0 <= k < |Direct(ous, u, DivisionName)| && Direct(ous, u, DivisionName)[k].id == ous[i].id;
    DirectSound(ous, u, DivisionName, k);
    var i' :| 0 <= i' < |ous| &&
      Direct(ous, u, DivisionName)[k] == Entry(ous[i'].id, ous[i'].name, Items(ous[i'].divisions, u, DivisionName));
    assert i' == i;
    assert UnitsOf(ous, u)[k] == Direct(ous, u, DivisionName)[k];
    assert DivisionName(ous[i].divisions[j]) == ous[i].divisions[j].name;
  }

  /** The caller's own row in the all-users listing is the profile getOrgUnitsAndDivisions answers with. */
  lemma AllUsersAgreesWithProfile(s: Store, caller: Id, k: nat)
    requires UniqueUserIds(s.users) && k < |s.users| && s.users[k].id == caller
    ensures GetOrgUnitsAndDivisions(s, caller) == Ok(ProfileOf(s.orgUnits, s.users[k]))
  {
    assert UserIndex(s.users, caller) == Some(k);
  }
}
