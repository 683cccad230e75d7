/** updateCredential: a management or admin caller who belongs to a division
    rewrites an account credential there. The handler is modelled as written,
    and beside it the update it evidently intends, with the properties the
    written one misses proved about the intended one. */
module ManagementUser {
  import opened Vault
  import opened Aggregate

  // ---------------------------------------------------------------------------
  // The update as the document store performs it

  /** The updateOne filter on an org-unit document. Each dotted condition on an array
      matches any element on its own: some division is named `d`, and some account
      (in any division) has the old name, some the old username, some the old password. */
  predicate UpdateFilter(o: OrgUnit, ou: string, d: string, prev: Credential) {
    o.name == ou && HasDivision(o, d) &&
    AnyAccount(o, Name, prev.name) && AnyAccount(o, Username, prev.username) && AnyAccount(o, Password, prev.password)
  }

  predicate HasDivision(o: OrgUnit, d: string) {
    exists j :: 0 <= j < |o.divisions| && o.divisions[j].name == d
  }

  /** The three stored fields of an account. */
  datatype Field = Name | Username | Password

  function FieldOf(c: Credential, f: Field): string {
    match f
    case Name => c.name
    case Username => c.username
    case Password => c.password
  }

  /** Some account, in some division of `o`, has `v` in field `f`. */
  predicate AnyAccount(o: OrgUnit, f: Field, v: string) {
    exists j, k :: 0 <= j < |o.divisions| && 0 <= k < |o.divisions[j].accounts| && FieldOf(o.divisions[j].accounts[k], f) == v
  }

  /** The position of the first element satisfying `p`. */
  function FirstWhere<T>(xs: seq<T>, p: T -> bool): (r: Option<nat>)
    ensures r.None? <==> forall k :: 0 <= k < |xs| ==> !p(xs[k])
    ensures r.Some? ==> r.value < |xs| && p(xs[r.value])
    ensures r.Some? ==> forall k :: 0 <= k < r.value ==> !p(xs[k])
  {
    if xs == [] then None
    else if p(xs[0]) then Some(0)
    else match FirstWhere(xs[1..], p)
      case None => None
      case Some(k) => Some(k + 1)
  }

  /** updateOne acts on the first document the filter matches. */
  function FirstMatch(ous: seq<OrgUnit>, ou: string, d: string, prev: Credential): (r: Option<nat>)
    ensures r.None? <==> forall k :: 0 <= k < |ous| ==> !UpdateFilter(ous[k], ou, d, prev)
    ensures r.Some? ==> r.value < |ous| && UpdateFilter(ous[r.value], ou, d, prev)
    ensures r.Some? ==> forall k :: 0 <= k < r.value ==> !UpdateFilter(ous[k], ou, d, prev)
  {
    FirstWhere(ous, o => UpdateFilter(o, ou, d, prev))
  }

  /** `accounts.$[acc]` with the array filter: every account equal to `prev` becomes `next`. */
  function RewriteAccounts(accounts: seq<Credential>, prev: Credential, next: Credential): seq<Credential> {
    seq(|accounts|, k requires 0 <= k < |accounts| => if accounts[k] == prev then next else accounts[k])
  }

  /** `divisions.$[]`: the rewrite applies in every division of the document. */
  function RewriteUnit(o: OrgUnit, prev: Credential, next: Credential): OrgUnit {
    o.(divisions := seq(|o.divisions|, j requires 0 <= j < |o.divisions| =>
      o.divisions[j].(accounts := RewriteAccounts(o.divisions[j].accounts, prev, next))))
  }

  /** Some division of the org unit holds an account equal to `c`. */
  predicate Holds(o: OrgUnit, c: Credential) {
    exists j, k :: 0 <= j < |o.divisions| && 0 <= k < |o.divisions[j].accounts| && o.divisions[j].accounts[k] == c
  }

  /** The duplicate rule of the nested scan, as written: the new name and username are
      already present, and the old name AND the old username both differ from the new ones. */
  predicate DuplicateAsWritten(rows: seq<Row>, prev: Credential, next: Credential) {
    RowsHoldPair(rows, next.name, next.username) && prev.name != next.name && prev.username != next.username
  }

  /** The handler as written. `modifiedCount > 0` exactly when the rewrite changed the document. */
  function UpdateCredentialSpec(s: Store, caller: Id, ou: string, d: string, prev: Credential, next: Credential): Reply
  {
    if next.name == "" || next.username == "" || next.password == "" then Reply(Failed(EmptyField), s)
    else match StoredRole(s.users, caller)
      case None => Reply(Failed(ServerError), s)
      case Some(role) =>
        if role != Management && role != Admin then Reply(Failed(Forbidden(RoleGate)), s)
        else
          var result := Scope(Rows(s.orgUnits, caller), ou, d);
          if |result| == 0 then Reply(Failed(Forbidden(MembershipGate)), s)
          else if DuplicateAsWritten(result, prev, next) then Reply(Failed(DuplicateCredential), s)
          else ApplyUpdate(s, ou, d, prev, next)
  }

  /** The update itself, past the gates: the first matching org unit is rewritten, and a
      write that modifies nothing is reported as such. */
  function ApplyUpdate(s: Store, ou: string, d: string, prev: Credential, next: Credential): Reply
  {
    match FirstMatch(s.orgUnits, ou, d, prev)
    case None => Reply(Failed(NothingUpdated), s)
    case Some(i) =>
      var o := RewriteUnit(s.orgUnits[i], prev, next);
      if o == s.orgUnits[i] then Reply(Failed(NothingUpdated), s)
      else Reply(Done, s.(orgUnits := s.orgUnits[i := o]))
  }

  /** The nested scan over the gate's rows, with the handler's four-way condition. */
  method NewPairTaken(rows: seq<Row>, prev: Credential, next: Credential) returns (found: bool)
    ensures found <==> DuplicateAsWritten(rows, prev, next)
  {
    found := false;
    var i := 0;
    while i < |rows|
      invariant 0 <= i <= |rows|
      invariant found <==>
        (exists a, k ::
          0 <= a < i && 0 <= k < |rows[a].division.accounts| &&
          rows[a].division.accounts[k].name == next.name && rows[a].division.accounts[k].username == next.username) &&
        prev.name != next.name && prev.username != next.username
    {
      var accounts := rows[i].division.accounts;
      var j := 0;
      while j < |accounts|
        invariant 0 <= j <= |accounts|
        invariant found <==>
          ((exists a, k ::
              0 <= a < i && 0 <= k < |rows[a].division.accounts| &&
              rows[a].division.accounts[k].name == next.name && rows[a].division.accounts[k].username == next.username) ||
           (exists k :: 0 <= k < j && accounts[k].name == next.name && accounts[k].username == next.username)) &&
          prev.name != next.name && prev.username != next.username
      {
        if next.name == accounts[j].name && next.username == accounts[j].username &&
           prev.name != next.name && prev.username != next.username {
          found := true;
        }
        j := j + 1;
      }
      i := i + 1;
    }
  }

  method UpdateCredential(db: Database, caller: Id, ou: string, d: string, prev: Credential, next: Credential)
    returns (st: Status)
    modifies db
    ensures Reply(st, db.Snapshot()) == UpdateCredentialSpec(old(db.Snapshot()), caller, ou, d, prev, next)
  {
    if next.name == "" || next.username == "" || next.password == "" {
      return Failed(EmptyField);
    }
    var userResult := FindUser(db.users, caller);
    if userResult.None? {
      return Failed(ServerError);
    }
    var userRole := userResult.value.role;
    if !(userRole == Management || userRole == Admin) {
      return Failed(Forbidden(RoleGate));
    }
    var result := Scope(Rows(db.orgUnits, caller), ou, d);
    if |result| <= 0 {
      return Failed(Forbidden(MembershipGate));
    }
    var accountAlreadyExists := NewPairTaken(result, prev, next);
    if accountAlreadyExists {
      return Failed(DuplicateCredential);
    }
    var at := FirstMatch(db.orgUnits, ou, d, prev);
    if at.None? {
      return Failed(NothingUpdated);
    }
    var o := RewriteUnit(db.orgUnits[at.value], prev, next);
    if o == db.orgUnits[at.value] {
      return Failed(NothingUpdated);
    }
    db.orgUnits := db.orgUnits[at.value := o];
    return Done;
  }

  // ---------------------------------------------------------------------------
  // Properties of the handler as written

  /** A blank new field is refused before anything else is looked at, whoever asks. */
  lemma EmptyFieldFirst(s: Store, caller: Id, ou: string, d: string, prev: Credential, next: Credential)
    requires next.name == "" || next.username == "" || next.password == ""
    ensures UpdateCredentialSpec(s, caller, ou, d, prev, next) == Reply(Failed(EmptyField), s)
  {
  }

  /** Every rejection leaves the store as it was. */
  lemma UpdateFailureChangesNothing(s: Store, caller: Id, ou: string, d: string, prev: Credential, next: Credential)
    requires UpdateCredentialSpec(s, caller, ou, d, prev, next).status.Failed?
    ensures UpdateCredentialSpec(s, caller, ou, d, prev, next).store == s
  {
  }

  /** With the new fields filled in: a missing caller is a server error, a role other than
      management or admin (including "normal") is refused, and then so is a caller outside `(ou, d)`. */
  lemma UpdateGates(s: Store, caller: Id, ou: string, d: string, prev: Credential, next: Credential)
    requires next.name != "" && next.username != "" && next.password != ""
    ensures var st := UpdateCredentialSpec(s, caller, ou, d, prev, next).status;
      && (StoredRole(s.users, caller).None? ==> st == Failed(ServerError))
      && (StoredRole(s.users, caller).Some? ==>
            (st == Failed(Forbidden(RoleGate)) <==> StoredRole(s.users, caller).value !in {Management, Admin}))
      && (StoredRole(s.users, caller).Some? && StoredRole(s.users, caller).value in {Management, Admin} ==>
            (st == Failed(Forbidden(MembershipGate)) <==> !IsMember(s.orgUnits, caller, ou, d)))
  {
    ScopedRowsIffMember(s.orgUnits, caller, ou, d);
  }

  /** Past the gates, the update is refused as a duplicate exactly when a division `(ou, d)`
      of the caller already holds the new name and username and both the name and the
      username change. */
  lemma UpdateDuplicateIff(s: Store, caller: Id, ou: string, d: string, prev: Credential, next: Credential)
    requires next.name != "" && next.username != "" && next.password != ""
    requires StoredRole(s.users, caller) == Some(Management) || StoredRole(s.users, caller) == Some(Admin)
    requires IsMember(s.orgUnits, caller, ou, d)
    ensures UpdateCredentialSpec(s, caller, ou, d, prev, next).status == Failed(DuplicateCredential) <==>
      MemberDivisionHoldsPair(s.orgUnits, caller, ou, d, next.name, next.username) &&
      prev.name != next.name && prev.username != next.username
  {
    ScopedRowsIffMember(s.orgUnits, caller, ou, d);
    ScopedPairIff(s.orgUnits, caller, ou, d, next.name, next.username);
  }

  /** The rewrite changes an org unit exactly when it holds the old account and the new one differs. */
  lemma RewriteChangesIff(o: OrgUnit, prev: Credential, next: Credential)
    ensures RewriteUnit(o, prev, next) != o <==> Holds(o, prev) && prev != next
  {
    var o' := RewriteUnit(o, prev, next);
    if Holds(o, prev) && prev != next {
      var j, k :| 0 <= j < |o.divisions| && 0 <= k < |o.divisions[j].accounts| && o.divisions[j].accounts[k] == prev;
      assert o'.divisions[j].accounts[k] == next;
    }
    if !Holds(o, prev) || prev == next {
      forall j | 0 <= j < |o.divisions| ensures o'.divisions[j] == o.divisions[j] {
        assert o'.divisions[j].accounts == o.divisions[j].accounts;
      }
      assert o'.divisions == o.divisions;
    }
  }

  /** A caller with the right role in `(ou, d)`, filling every new field and not refused by
      the duplicate rule, gets exactly the outcome of the write. */
  lemma UpdatePastGates(s: Store, caller: Id, ou: string, d: string, prev: Credential, next: Credential)
    requires next.name != "" && next.username != "" && next.password != ""
    requires StoredRole(s.users, caller) == Some(Management) || StoredRole(s.users, caller) == Some(Admin)
    requires IsMember(s.orgUnits, caller, ou, d)
    requires !MemberDivisionHoldsPair(s.orgUnits, caller, ou, d, next.name, next.username) ||
             prev.name == next.name || prev.username == next.username
    ensures UpdateCredentialSpec(s, caller, ou, d, prev, next) == ApplyUpdate(s, ou, d, prev, next)
  {
    ScopedRowsIffMember(s.orgUnits, caller, ou, d);
    ScopedPairIff(s.orgUnits, caller, ou, d, next.name, next.username);
  }

  /** The write succeeds or reports nothing updated; it reports nothing updated exactly when
      no org unit matches the filter, the first one holds no account equal to the old
      credential, or the new credential equals the old. */
  lemma NothingUpdatedIff(s: Store, ou: string, d: string, prev: Credential, next: Credential)
    ensures var r := ApplyUpdate(s, ou, d, prev, next);
      && (r.status == Failed(NothingUpdated) || r.status == Done)
      && (r.status == Failed(NothingUpdated) <==>
            FirstMatch(s.orgUnits, ou, d, prev).None? ||
            !Holds(s.orgUnits[FirstMatch(s.orgUnits, ou, d, prev).value], prev) || prev == next)
  {
    match FirstMatch(s.orgUnits, ou, d, prev)
    case None =>
    case Some(i) => RewriteChangesIff(s.orgUnits[i], prev, next);
  }

  /** A successful update rewrites, in every division of the first org unit the filter
      matches, each account equal to the old credential into the new one; only that org unit
      changes, and the users are untouched. */
  lemma UpdateEffect(s: Store, caller: Id, ou: string, d: string, prev: Credential, next: Credential)
    requires UpdateCredentialSpec(s, caller, ou, d, prev, next).status == Done
    ensures var r := UpdateCredentialSpec(s, caller, ou, d, prev, next);
      && prev != next && r.store.users == s.users
      && FirstMatch(s.orgUnits, ou, d, prev).Some?
      && var i := FirstMatch(s.orgUnits, ou, d, prev).value;
         && s.orgUnits[i].name == ou && Holds(s.orgUnits[i], prev)
         && r.store.orgUnits == s.orgUnits[i := RewriteUnit(s.orgUnits[i], prev, next)]
  {
    var r := UpdateCredentialSpec(s, caller, ou, d, prev, next);
    assert r == ApplyUpdate(s, ou, d, prev, next);
    var i := FirstMatch(s.orgUnits, ou, d, prev).value;
    var o := RewriteUnit(s.orgUnits[i], prev, next);
    assert o != s.orgUnits[i] && r.store == s.(orgUnits := s.orgUnits[i := o]);
    RewriteChangesIff(s.orgUnits[i], prev, next);
    assert UpdateFilter(s.orgUnits[i], ou, d, prev);
  }

  /** Under the written rule, changing only the name or only the username is never
      refused as a duplicate, whatever the division holds. */
  lemma SingleFieldChangeNeverDuplicate(s: Store, caller: Id, ou: string, d: string, prev: Credential, next: Credential)
    requires prev.name == next.name || prev.username == next.username
    ensures UpdateCredentialSpec(s, caller, ou, d, prev, next).status != Failed(DuplicateCredential)
  {
  }

  // ---------------------------------------------------------------------------
  // Two inputs that show the written handler missing its evident intent

  /** A management caller (id 1) who belongs to division D of org unit OU, which also holds
      an account Web that the caller does not belong to in division E. */
  function Example(): Store {
    Store(
      [User(1, "mia", "digest", Management)],
      [OrgUnit(10, "OU", [
         Division("D", [1], [Credential("mail", "c", "p1"), Credential("web", "c", "p2")]),
         Division("E", [], [Credential("web", "c", "p2")])])])
  }

  /** The example after the rename: D holds mail/c twice, and E's account was renamed too. */
  function ExampleAfter(): Store {
    Store(
      [User(1, "mia", "digest", Management)],
      [OrgUnit(10, "OU", [
         Division("D", [1], [Credential("mail", "c", "p1"), Credential("mail", "c", "p3")]),
         Division("E", [], [Credential("mail", "c", "p3")])])])
  }

  /** The gate's rows for the example caller in `(OU, D)`: the one row of division D. */
  lemma ExampleScope()
    ensures Scope(Rows(Example().orgUnits, 1), "OU", "D") == [Row(10, "OU", Example().orgUnits[0].divisions[0])]
  {
    var s := Example();
    var dv := s.orgUnits[0].divisions[0];
    assert Count(dv.users, 1) == 1;
    assert Count(s.orgUnits[0].divisions[1].users, 1) == 0;
    assert DivisionRows(s.orgUnits[0], s.orgUnits[0].divisions[1..], 1) == [];
    assert Rows(s.orgUnits, 1) == [Row(10, "OU", dv)];
  }

  /** The example's org unit matches the filter for web/c/p2, and the rewrite yields ExampleAfter's. */
  lemma ExampleRewrite()
    ensures FirstMatch(Example().orgUnits, "OU", "D", Credential("web", "c", "p2")) == Some(0)
    ensures RewriteUnit(Example().orgUnits[0], Credential("web", "c", "p2"), Credential("mail", "c", "p3")) ==
      ExampleAfter().orgUnits[0]
  {
    var prev := Credential("web", "c", "p2");
    var next := Credential("mail", "c", "p3");
    var o := Example().orgUnits[0];
    var dv := o.divisions[0];
    assert UpdateFilter(o, "OU", "D", prev) by {
      assert dv.accounts[1] == prev;
      assert FieldOf(dv.accounts[1], Name) == prev.name;
      assert FieldOf(dv.accounts[1], Username) == prev.username;
      assert FieldOf(dv.accounts[1], Password) == prev.password;
    }
    var o' := RewriteUnit(o, prev, next);
    var after := ExampleAfter().orgUnits[0];
    assert o'.divisions[0].accounts == after.divisions[0].accounts;
    assert o'.divisions[1].accounts == after.divisions[1].accounts;
    assert o'.divisions == after.divisions;
  }

  /** Past the gates, the example's write succeeds and yields ExampleAfter. */
  lemma ExampleApply()
    ensures ApplyUpdate(Example(), "OU", "D", Credential("web", "c", "p2"), Credential("mail", "c", "p3")) ==
      Reply(Done, ExampleAfter())
  {
    var s := Example();
    ExampleRewrite();
    var o := ExampleAfter().orgUnits[0];
    assert o != s.orgUnits[0] by {
      assert o.divisions[1].accounts[0] != s.orgUnits[0].divisions[1].accounts[0];
    }
    assert s.orgUnits[0 := o] == ExampleAfter().orgUnits;
  }

  /** Renaming web/c/p2 to mail/c/p3 in `(OU, D)` passes every gate, succeeds and yields ExampleAfter. */
  lemma ExampleOutcome()
    ensures UpdateCredentialSpec(Example(), 1, "OU", "D", Credential("web", "c", "p2"), Credential("mail", "c", "p3")) ==
      Reply(Done, ExampleAfter())
  {
    var s := Example();
    var prev := Credential("web", "c", "p2");
    var next := Credential("mail", "c", "p3");
    assert StoredRole(s.users, 1) == Some(Management) by {
      assert UserIndex(s.users, 1) == Some(0);
    }
    ExampleScope();
    assert prev.username == next.username;
    assert !DuplicateAsWritten([Row(10, "OU", s.orgUnits[0].divisions[0])], prev, next);
    assert UpdateCredentialSpec(s, 1, "OU", "D", prev, next) == ApplyUpdate(s, "OU", "D", prev, next);
    ExampleApply();
  }

  /** Renaming account web/c to mail/c in D passes the written duplicate rule (the username
      does not change) and leaves D with two accounts named mail with username c. */
  lemma AndRuleAdmitsDuplicate()
    ensures AllPairsUnique(Example().orgUnits)
    ensures var r := UpdateCredentialSpec(Example(), 1, "OU", "D", Credential("web", "c", "p2"), Credential("mail", "c", "p3"));
      r.status == Done && !AllPairsUnique(r.store.orgUnits)
  {
    var dv := Example().orgUnits[0].divisions[0];
    assert PairsUnique(dv.accounts) by {
      assert dv.accounts[0].name != dv.accounts[1].name;
    }
    assert PairsUnique(Example().orgUnits[0].divisions[1].accounts);
    ExampleOutcome();
    var after := ExampleAfter().orgUnits[0].divisions[0].accounts;
    assert after[0].name == after[1].name && after[0].username == after[1].username;
  }

  /** The same request also rewrites the web/c account of division E, a division the caller
      does not belong to: `divisions.$[]` reaches every division of the org unit. */
  lemma RewriteReachesOtherDivisions()
    ensures !IsMember(Example().orgUnits, 1, "OU", "E")
    ensures var r := UpdateCredentialSpec(Example(), 1, "OU", "D", Credential("web", "c", "p2"), Credential("mail", "c", "p3"));
      r.status == Done && r.store.orgUnits[0].divisions[1] != Example().orgUnits[0].divisions[1]
  {
    ExampleOutcome();
    assert ExampleAfter().orgUnits[0].divisions[1].accounts[0] != Example().orgUnits[0].divisions[1].accounts[0];
  }

  // ---------------------------------------------------------------------------
  // The intended update

  /** The duplicate rule as intended: the new name and username are already present and
      the pair changes at all (its name OR its username). */
  predicate DuplicateIntended(rows: seq<Row>, prev: Credential, next: Credential) {
    RowsHoldPair(rows, next.name, next.username) && (prev.name != next.name || prev.username != next.username)
  }

  /** The handler as intended: the intended duplicate rule, and the rewrite confined to the
      division `(ou, d)` the caller belongs to. */
  function UpdateCredentialIntended(s: Store, caller: Id, ou: string, d: string, prev: Credential, next: Credential): Reply
  {
    if next.name == "" || next.username == "" || next.password == "" then Reply(Failed(EmptyField), s)
    else match StoredRole(s.users, caller)
      case None => Reply(Failed(ServerError), s)
      case Some(role) =>
        if role != Management && role != Admin then Reply(Failed(Forbidden(RoleGate)), s)
        else
          var result := Scope(Rows(s.orgUnits, caller), ou, d);
          if |result| == 0 then Reply(Failed(Forbidden(MembershipGate)), s)
          else if DuplicateIntended(result, prev, next) then Reply(Failed(DuplicateCredential), s)
          else ApplyIntended(s, caller, ou, d, prev, next)
  }

  /** The intended write: only the caller's division `(ou, d)` is rewritten. */
  function ApplyIntended(s: Store, caller: Id, ou: string, d: string, prev: Credential, next: Credential): Reply
  {
    match Locate(s.orgUnits, ou, d, Some(caller))
    case None => Reply(Failed(NothingUpdated), s)
    case Some(p) =>
      var dv := s.orgUnits[p.0].divisions[p.1];
      if prev !in dv.accounts || prev == next then Reply(Failed(NothingUpdated), s)
      else Reply(Done, s.(orgUnits := WithDivision(s.orgUnits, p.0, p.1,
        dv.(accounts := RewriteAccounts(dv.accounts, prev, next)))))
  }

  /** The intended rewrite changes one division, named `(ou, d)`, that lists the caller. */
  lemma IntendedConfined(s: Store, caller: Id, ou: string, d: string, prev: Credential, next: Credential)
    requires UpdateCredentialIntended(s, caller, ou, d, prev, next).status == Done
    ensures var r := UpdateCredentialIntended(s, caller, ou, d, prev, next);
      && r.store.users == s.users
      && exists i, j ::
           0 <= i < |s.orgUnits| && 0 <= j < |s.orgUnits[i].divisions| &&
           s.orgUnits[i].name == ou && s.orgUnits[i].divisions[j].name == d &&
           caller in s.orgUnits[i].divisions[j].users && prev in s.orgUnits[i].divisions[j].accounts &&
           r.store.orgUnits == WithDivision(s.orgUnits, i, j,
             s.orgUnits[i].divisions[j].(accounts := RewriteAccounts(s.orgUnits[i].divisions[j].accounts, prev, next)))
  {
    var r := UpdateCredentialIntended(s, caller, ou, d, prev, next);
    assert r == ApplyIntended(s, caller, ou, d, prev, next);
    var p := Locate(s.orgUnits, ou, d, Some(caller)).value;
    var dv := s.orgUnits[p.0].divisions[p.1];
    assert prev in dv.accounts && r.store == s.(orgUnits := WithDivision(s.orgUnits, p.0, p.1,
      dv.(accounts := RewriteAccounts(dv.accounts, prev, next))));
    assert Selects(dv, d, Some(caller));
    assert s.orgUnits[p.0].name == ou && dv.name == d && caller in dv.users;
  }

  /** Rewriting the accounts equal to `prev` into `next` keeps pairs unique when the pair does
      not change, or when no account holds the new pair. */
  lemma RewriteKeepsPairsUnique(accounts: seq<Credential>, prev: Credential, next: Credential)
    requires PairsUnique(accounts)
    requires (prev.name == next.name && prev.username == next.username) ||
             forall k :: 0 <= k < |accounts| ==> accounts[k].name != next.name || accounts[k].username != next.username
    ensures PairsUnique(RewriteAccounts(accounts, prev, next))
  {
    var r := RewriteAccounts(accounts, prev, next);
    forall a, b | 0 <= a < b < |r| ensures r[a].name != r[b].name || r[a].username != r[b].username {
      assert accounts[a].name != accounts[b].name || accounts[a].username != accounts[b].username;
    }
  }

  /** The intended update never leaves two accounts of a division with the same name and
      username. */
  lemma IntendedKeepsPairsUnique(s: Store, caller: Id, ou: string, d: string, prev: Credential, next: Credential)
    requires AllPairsUnique(s.orgUnits)
    ensures AllPairsUnique(UpdateCredentialIntended(s, caller, ou, d, prev, next).store.orgUnits)
  {
    var r := UpdateCredentialIntended(s, caller, ou, d, prev, next);
    if r.status == Done {
      IntendedConfined(s, caller, ou, d, prev, next);
      ScopedRowsIffMember(s.orgUnits, caller, ou, d);
      ScopedPairIff(s.orgUnits, caller, ou, d, next.name, next.username);
      var p := Locate(s.orgUnits, ou, d, Some(caller)).value;
      var dv := s.orgUnits[p.0].divisions[p.1];
      assert Selects(dv, d, Some(caller));
      if prev.name != next.name || prev.username != next.username {
        DivisionLacksPair(s.orgUnits, caller, ou, d, next.name, next.username, p.0, p.1);
      }
      RewriteKeepsPairsUnique(dv.accounts, prev, next);
      WithDivisionKeepsPairsUnique(s.orgUnits, p.0, p.1, dv.(accounts := RewriteAccounts(dv.accounts, prev, next)));
    }
  }


  /** On the example, the intended handler refuses the rename as a duplicate. */
  lemma IntendedRefusesExample()
    ensures var s := Example();
      UpdateCredentialIntended(s, 1, "OU", "D", Credential("web", "c", "p2"), Credential("mail", "c", "p3")) ==
        Reply(Failed(DuplicateCredential), s)
  {
    var s := Example();
    ExampleScope();
    var row := Row(10, "OU", s.orgUnits[0].divisions[0]);
    assert row.division.accounts[0].name == "mail";
    assert RowsHoldPair([row], "mail", "c");
  }
}
