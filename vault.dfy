/** The data model of the credential vault: the user directory, the tree of
    organisational units, divisions and account credentials, the tagged
    outcomes every handler answers with, and the first-match lookups and
    point updates the document store performs on behalf of the handlers. */
module Vault {

  /** Document identifiers (MongoDB object ids), for users and org units alike. */
  type Id = nat

  datatype Option<T> = None | Some(value: T)

  /** A row of the `users` collection. `hash` is the bcrypt digest of the password. */
  datatype User = User(id: Id, username: string, hash: string, role: string)

  /** An account credential, stored as given. */
  datatype Credential = Credential(name: string, username: string, password: string)

  /** A division: its member ids (the access-control edge) and its accounts, in insertion order. */
  datatype Division = Division(name: string, users: seq<Id>, accounts: seq<Credential>)

  datatype OrgUnit = OrgUnit(id: Id, name: string, divisions: seq<Division>)

  /** The two collections the handlers read and write. */
  datatype Store = Store(users: seq<User>, orgUnits: seq<OrgUnit>)

  /** Which gate turned a request away. */
  datatype Gate = RoleGate | MembershipGate

  datatype Failure =
    | BadJWT                      // the outer catch of a handler ("Bad JWT!")
    | ServerError                 // an inner catch: the directory has no record for the caller
    | Forbidden(gate: Gate)
    | InvalidRole
    | AlreadyAssigned
    | NotAssigned
    | DuplicateCredential
    | EmptyField
    | NothingUpdated
    | UsernameTaken(existing: string)
    | InvalidCredentials

  /** Outcome of a handler that answers with a message only. */
  datatype Status = Done | Failed(failure: Failure)

  /** Outcome of a handler that answers with a payload. */
  datatype Result<T> = Ok(value: T) | Err(failure: Failure)

  /** What a mutating handler leaves behind: its outcome and the store after it. */
  datatype Reply = Reply(status: Status, store: Store)

  const Normal: string := "normal"
  const Management: string := "management"
  const Admin: string := "admin"

  /** Roles are raw strings in the directory; the handlers compare them literally. */
  predicate IsValidRole(role: string) {
    role == Normal || role == Management || role == Admin
  }

  ghost predicate ValidRoles(users: seq<User>) {
    forall k :: 0 <= k < |users| ==> IsValidRole(users[k].role)
  }

  ghost predicate UniqueUserIds(users: seq<User>) {
    forall a, b :: 0 <= a < b < |users| ==> users[a].id != users[b].id
  }

  // ---------------------------------------------------------------------------
  // Sequence helpers

  function Count(xs: seq<Id>, x: Id): nat {
    if xs == [] then 0 else (if xs[0] == x then 1 else 0) + Count(xs[1..], x)
  }

  ghost predicate NoDup<T>(xs: seq<T>) {
    forall a, b :: 0 <= a < b < |xs| ==> xs[a] != xs[b]
  }

  lemma {:induction false} CountPositive(xs: seq<Id>, x: Id)
    ensures Count(xs, x) > 0 <==> x in xs
  {
    if xs != [] {
      CountPositive(xs[1..], x);
      assert xs == [xs[0]] + xs[1..];
    }
  }

  lemma {:induction false} CountNoDup(xs: seq<Id>, x: Id)
    requires NoDup(xs)
    ensures Count(xs, x) == if x in xs then 1 else 0
  {
    if xs != [] {
      assert NoDup(xs[1..]) by {
        forall a, b | 0 <= a < b < |xs[1..]| ensures xs[1..][a] != xs[1..][b] {
          assert xs[1..][a] == xs[a + 1] && xs[1..][b] == xs[b + 1];
        }
      }
      CountNoDup(xs[1..], x);
      if xs[0] == x {
        assert x !in xs[1..] by {
          forall k | 0 <= k < |xs[1..]| ensures xs[1..][k] != x {
            assert xs[1..][k] == xs[k + 1];
          }
        }
      }
      assert xs == [xs[0]] + xs[1..];
    }
  }

  /** The `$pull` of a member id: every occurrence of `x` goes, the rest keep their order. */
  function Without(xs: seq<Id>, x: Id): (r: seq<Id>)
    ensures x !in r
    ensures forall y :: y in r <==> y in xs && y != x
    ensures forall y :: y != x ==> Count(r, y) == Count(xs, y)
    ensures NoDup(xs) ==> NoDup(r)
    ensures x !in xs ==> r == xs
  {
    if xs == [] then []
    else
      var rest := Without(xs[1..], x);
      assert xs == [xs[0]] + xs[1..];
      if xs[0] == x then rest
      else
        assert NoDup(xs) ==> xs[0] !in xs[1..] by {
          if NoDup(xs) {
            forall k | 0 <= k < |xs[1..]| ensures xs[1..][k] != xs[0] {
              assert xs[1..][k] == xs[k + 1];
            }
          }
        }
        assert NoDup(xs) ==> NoDup(xs[1..]) by {
          if NoDup(xs) {
            forall a, b | 0 <= a < b < |xs[1..]| ensures xs[1..][a] != xs[1..][b] {
              assert xs[1..][a] == xs[a + 1] && xs[1..][b] == xs[b + 1];
            }
          }
        }
        var r := [xs[0]] + rest;
        assert forall k :: 1 <= k < |r| ==> r[k] == rest[k - 1];
        r
  }

  /** `$pull` on a one-element list: the element goes exactly when it is `x`. */
  lemma WithoutSingle(y: Id, x: Id)
    ensures Without([y], x) == if y == x then [] else [y]
  {
    assert [y][1..] == [];
  }

  /** `$pull` works element by element: pulling from a concatenation pulls from each part, so
      together with WithoutSingle the ids that stay keep their relative order. */
  lemma {:induction false} WithoutConcat(a: seq<Id>, b: seq<Id>, x: Id)
    ensures Without(a + b, x) == Without(a, x) + Without(b, x)
  {
    if a != [] {
      assert (a + b)[1..] == a[1..] + b;
      WithoutConcat(a[1..], b, x);
    } else {
      assert a + b == b;
    }
  }

  // ---------------------------------------------------------------------------
  // ASCII stand-in for String.prototype.toLowerCase

  function LowerChar(c: char): char {
    if 'A' <= c <= 'Z' then (c as int + 32) as char else c
  }

  function Lower(s: string): (r: string)
    ensures |r| == |s|
    ensures forall k :: 0 <= k < |s| ==> r[k] == LowerChar(s[k])
  {
    seq(|s|, k requires 0 <= k < |s| => LowerChar(s[k]))
  }

  /** The case-insensitive comparison of `a.toLowerCase() === b.toLowerCase()`. */
  predicate SameName(a: string, b: string) {
    Lower(a) == Lower(b)
  }

  // ---------------------------------------------------------------------------
  // The user directory

  /** `User.findOne({_id: id})`: the position of the first user with that id. */
  function UserIndex(users: seq<User>, id: Id): (r: Option<nat>)
    ensures r.None? <==> forall k :: 0 <= k < |users| ==> users[k].id != id
    ensures r.Some? ==> r.value < |users| && users[r.value].id == id
    ensures r.Some? ==> forall k :: 0 <= k < r.value ==> users[k].id != id
  {
    if users == [] then None
    else if users[0].id == id then Some(0)
    else match UserIndex(users[1..], id)
      case None => None
      case Some(k) => Some(k + 1)
  }

  function FindUser(users: seq<User>, id: Id): Option<User> {
    match UserIndex(users, id)
    case None => None
    case Some(k) => Some(users[k])
  }

  /** The role the directory currently holds for `id`; the handlers never trust the token's. */
  function StoredRole(users: seq<User>, id: Id): Option<string> {
    match FindUser(users, id)
    case None => None
    case Some(u) => Some(u.role)
  }

  /** `User.updateOne({_id: id}, {$set: {role}})`: the first user with that id gets the role. */
  function SetRole(users: seq<User>, id: Id, role: string): (r: seq<User>)
    ensures |r| == |users|
    ensures UserIndex(users, id).None? ==> r == users
    ensures forall k :: 0 <= k < |users| ==>
      r[k] == if UserIndex(users, id) == Some(k) then users[k].(role := role) else users[k]
  {
    match UserIndex(users, id)
    case None => users
    case Some(k) => users[k := users[k].(role := role)]
  }

  /** An id no directory entry carries, for the document `User.create` inserts. */
  function FreshId(users: seq<User>): (id: Id)
    ensures forall k :: 0 <= k < |users| ==> users[k].id < id
  {
    if users == [] then 0
    else
      var rest := FreshId(users[1..]);
      assert forall k :: 1 <= k < |users| ==> users[k] == users[1..][k - 1];
      if users[0].id < rest then rest else users[0].id + 1
  }

  // ---------------------------------------------------------------------------
  // The org graph

  /** `u` is a member of `(ou, d)`: some org unit named `ou` has a division named `d` listing `u`. */
  ghost predicate IsMember(ous: seq<OrgUnit>, u: Id, ou: string, d: string) {
    exists i, j :: 0 <= i < |ous| && 0 <= j < |ous[i].divisions| &&
      ous[i].name == ou && ous[i].divisions[j].name == d && u in ous[i].divisions[j].users
  }

  /** The predicate an update filter puts on a division: its name, and when `who`
      is given, that `who` is listed among its members. */
  predicate Selects(dv: Division, d: string, who: Option<Id>) {
    dv.name == d && (who.Some? ==> who.value in dv.users)
  }

  /** The division a positional `divisions.$` update resolves to: the first selected one. */
  function DivisionIndex(divs: seq<Division>, d: string, who: Option<Id>): (r: Option<nat>)
    ensures r.None? <==> forall k :: 0 <= k < |divs| ==> !Selects(divs[k], d, who)
    ensures r.Some? ==> r.value < |divs| && Selects(divs[r.value], d, who)
    ensures r.Some? ==> forall k :: 0 <= k < r.value ==> !Selects(divs[k], d, who)
  {
    if divs == [] then None
    else if Selects(divs[0], d, who) then Some(0)
    else match DivisionIndex(divs[1..], d, who)
      case None => None
      case Some(k) => Some(k + 1)
  }

  predicate Hosts(o: OrgUnit, ou: string, d: string, who: Option<Id>) {
    o.name == ou && DivisionIndex(o.divisions, d, who).Some?
  }

  /** `OrgUnit.updateOne({name: ou, 'divisions.name': d, ...}, {... 'divisions.$...' ...})`:
      the first org unit that hosts a selected division, and that division's position in it. */
  function Locate(ous: seq<OrgUnit>, ou: string, d: string, who: Option<Id>): (r: Option<(nat, nat)>)
    ensures r.None? <==> forall k :: 0 <= k < |ous| ==> !Hosts(ous[k], ou, d, who)
    ensures r.Some? ==> r.value.0 < |ous| && Hosts(ous[r.value.0], ou, d, who)
    ensures r.Some? ==> DivisionIndex(ous[r.value.0].divisions, d, who) == Some(r.value.1)
    ensures r.Some? ==> forall k :: 0 <= k < r.value.0 ==> !Hosts(ous[k], ou, d, who)
  {
    if ous == [] then None
    else if Hosts(ous[0], ou, d, who) then Some((0, DivisionIndex(ous[0].divisions, d, who).value))
    else match Locate(ous[1..], ou, d, who)
      case None => None
      case Some(p) => Some((p.0 + 1, p.1))
  }

  /** A member of `(ou, d)` makes both kinds of positional update find a division. */
  lemma {:induction false} MemberIsLocated(ous: seq<OrgUnit>, u: Id, ou: string, d: string)
    requires IsMember(ous, u, ou, d)
    ensures Locate(ous, ou, d, None).Some?
    ensures Locate(ous, ou, d, Some(u)).Some?
  {
    var i, j :| 0 <= i < |ous| && 0 <= j < |ous[i].divisions| &&
      ous[i].name == ou && ous[i].divisions[j].name == d && u in ous[i].divisions[j].users;
    assert Selects(ous[i].divisions[j], d, None) && Selects(ous[i].divisions[j], d, Some(u));
    assert Hosts(ous[i], ou, d, None) && Hosts(ous[i], ou, d, Some(u));
  }

  /** Replaces division `j` of org unit `i`, leaving every other division and org unit as it was. */
  function WithDivision(ous: seq<OrgUnit>, i: nat, j: nat, dv: Division): (r: seq<OrgUnit>)
    requires i < |ous| && j < |ous[i].divisions|
    ensures |r| == |ous| && r[i].id == ous[i].id && r[i].name == ous[i].name
    ensures |r[i].divisions| == |ous[i].divisions| && r[i].divisions[j] == dv
    ensures forall k :: 0 <= k < |ous| && k != i ==> r[k] == ous[k]
    ensures forall k :: 0 <= k < |ous[i].divisions| && k != j ==> r[i].divisions[k] == ous[i].divisions[k]
  {
    ous[i := ous[i].(divisions := ous[i].divisions[j := dv])]
  }

  /** Division names identify divisions: no two divisions, in the same org unit or in
      two org units of the same name, share the pair (org-unit name, division name). */
  ghost predicate UniqueKeys(ous: seq<OrgUnit>) {
    forall i, j, a, b :: 0 <= i < |ous| && 0 <= j < |ous| &&
      0 <= a < |ous[i].divisions| && 0 <= b < |ous[j].divisions| &&
      ous[i].name == ous[j].name && ous[i].divisions[a].name == ous[j].divisions[b].name
      ==> i == j && a == b
  }

  /** No division lists a member twice. */
  ghost predicate NoDupMembers(ous: seq<OrgUnit>) {
    forall i, j :: 0 <= i < |ous| && 0 <= j < |ous[i].divisions| ==> NoDup(ous[i].divisions[j].users)
  }

  /** Within one division no two accounts share both name and username. */
  ghost predicate PairsUnique(accounts: seq<Credential>) {
    forall a, b :: 0 <= a < b < |accounts| ==>
      accounts[a].name != accounts[b].name || accounts[a].username != accounts[b].username
  }

  ghost predicate AllPairsUnique(ous: seq<OrgUnit>) {
    forall i, j :: 0 <= i < |ous| && 0 <= j < |ous[i].divisions| ==> PairsUnique(ous[i].divisions[j].accounts)
  }

  /** Replacing one division by one whose accounts are pairwise distinct keeps every division so. */
  lemma WithDivisionKeepsPairsUnique(ous: seq<OrgUnit>, i: nat, j: nat, dv: Division)
    requires i < |ous| && j < |ous[i].divisions| && AllPairsUnique(ous) && PairsUnique(dv.accounts)
    ensures AllPairsUnique(WithDivision(ous, i, j, dv))
  {
    var r := WithDivision(ous, i, j, dv);
    forall a, b | 0 <= a < |r| && 0 <= b < |r[a].divisions| ensures PairsUnique(r[a].divisions[b].accounts) {
      if a != i || b != j {
        assert r[a].divisions[b] == ous[a].divisions[b];
      }
    }
  }

  /** Under unique keys, the division a positional update resolves to is the one `u` belongs to. */
  lemma {:induction false} LocatedIsMemberDivision(ous: seq<OrgUnit>, u: Id, ou: string, d: string, who: Option<Id>)
    requires UniqueKeys(ous) && IsMember(ous, u, ou, d)
    requires Locate(ous, ou, d, who).Some?
    ensures u in ous[Locate(ous, ou, d, who).value.0].divisions[Locate(ous, ou, d, who).value.1].users
  {
    var p := Locate(ous, ou, d, who).value;
    var i, j :| 0 <= i < |ous| && 0 <= j < |ous[i].divisions| &&
      ous[i].name == ou && ous[i].divisions[j].name == d && u in ous[i].divisions[j].users;
    assert ous[p.0].divisions[p.1].name == d;
    assert i == p.0 && j == p.1;
  }

  /** Two org graphs with the same org units and divisions under the same names. */
  ghost predicate SameNames(a: seq<OrgUnit>, b: seq<OrgUnit>) {
    |a| == |b| &&
    forall i :: 0 <= i < |a| ==>
      a[i].name == b[i].name && |a[i].divisions| == |b[i].divisions| &&
      forall j :: 0 <= j < |a[i].divisions| ==> a[i].divisions[j].name == b[i].divisions[j].name
  }

  lemma SameNamesKeepUniqueKeys(a: seq<OrgUnit>, b: seq<OrgUnit>)
    requires SameNames(a, b) && UniqueKeys(a)
    ensures UniqueKeys(b)
  {
    forall i, j, x, y | 0 <= i < |b| && 0 <= j < |b| &&
      0 <= x < |b[i].divisions| && 0 <= y < |b[j].divisions| &&
      b[i].name == b[j].name && b[i].divisions[x].name == b[j].divisions[y].name
      ensures i == j && x == y
    {
      assert a[i].divisions[x].name == b[i].divisions[x].name;
      assert a[j].divisions[y].name == b[j].divisions[y].name;
    }
  }

  /** Rewriting one division under its own name keeps every org-unit and division name. */
  lemma WithDivisionSameNames(ous: seq<OrgUnit>, i: nat, j: nat, dv: Division)
    requires i < |ous| && j < |ous[i].divisions| && dv.name == ous[i].divisions[j].name
    ensures SameNames(ous, WithDivision(ous, i, j, dv))
  {
    var r := WithDivision(ous, i, j, dv);
    forall k | 0 <= k < |ous|
      ensures ous[k].name == r[k].name && |ous[k].divisions| == |r[k].divisions|
      ensures forall x :: 0 <= x < |ous[k].divisions| ==> ous[k].divisions[x].name == r[k].divisions[x].name
    {
      if k == i {
        forall x | 0 <= x < |ous[k].divisions| ensures ous[k].divisions[x].name == r[k].divisions[x].name {
          if x != j {
            assert r[k].divisions[x] == ous[k].divisions[x];
          }
        }
      }
    }
  }

  /** Writing a division back over its own rewrite restores the org graph. */
  lemma WithDivisionRestore(ous: seq<OrgUnit>, i: nat, j: nat, dv: Division)
    requires i < |ous| && j < |ous[i].divisions|
    ensures WithDivision(WithDivision(ous, i, j, dv), i, j, ous[i].divisions[j]) == ous
  {
    var r := WithDivision(WithDivision(ous, i, j, dv), i, j, ous[i].divisions[j]);
    assert r[i].divisions == ous[i].divisions;
    assert r[i] == ous[i];
  }

  /** Under unique keys, a positional update resolves to the one division carrying the key. */
  lemma LocateUnique(ous: seq<OrgUnit>, ou: string, d: string, who: Option<Id>, i: nat, j: nat)
    requires UniqueKeys(ous)
    requires i < |ous| && j < |ous[i].divisions| && ous[i].name == ou && Selects(ous[i].divisions[j], d, who)
    ensures Locate(ous, ou, d, who) == Some((i, j))
  {
    assert Hosts(ous[i], ou, d, who);
    var p := Locate(ous, ou, d, who).value;
    assert ous[p.0].divisions[p.1].name == d;
  }

  // ---------------------------------------------------------------------------
  // The store as a mutable object

  /** The database both collections live in; the handlers update it in place. */
  class Database {
    var users: seq<User>
    var orgUnits: seq<OrgUnit>

    function Snapshot(): Store
      reads this
    {
      Store(users, orgUnits)
    }

    constructor (s: Store)
      ensures Snapshot() == s
    {
      users := s.users;
      orgUnits := s.orgUnits;
    }
  }
}
