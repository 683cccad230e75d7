/** The aggregation pipelines run by the handlers that read the org graph:
    `$unwind` the divisions, `$unwind` their member ids, `$match` one member id
    (and, for the gates, an org-unit and division name), and, for the listings,
    `$group` the surviving documents back by org-unit id. Rows and Group follow the
    stages; Direct is the per-org-unit meaning the listings are proved to have. */
module Aggregate {
  import opened Vault

  /** One pipeline document after both unwinds and the member-id match. */
  datatype Row = Row(ouId: Id, ouName: string, division: Division)

  /** One `$group` output: the org-unit id, its `$first` name and the `$push`ed items. */
  datatype Entry<T> = Entry(id: Id, name: string, items: seq<T>)

  function Repeat<T>(x: T, n: nat): (r: seq<T>)
    ensures |r| == n && forall k :: 0 <= k < n ==> r[k] == x
  {
    if n == 0 then [] else [x] + Repeat(x, n - 1)
  }

  /** The unwound rows of one org unit's divisions `divs` whose member id is `u`:
      one per occurrence of `u` in a division's `users`. */
  function DivisionRows(o: OrgUnit, divs: seq<Division>, u: Id): seq<Row>
  {
    if divs == [] then []
    else Repeat(Row(o.id, o.name, divs[0]), Count(divs[0].users, u)) + DivisionRows(o, divs[1..], u)
  }

  /** `$unwind: '$divisions'`, `$unwind: '$divisions.users'`, `$match: {'divisions.users': u}`. */
  function Rows(ous: seq<OrgUnit>, u: Id): seq<Row>
  {
    if ous == [] then [] else DivisionRows(ous[0], ous[0].divisions, u) + Rows(ous[1..], u)
  }

  /** The extra `$match: {name: ou, 'divisions.name': d}` of the gates. */
  function Scope(rows: seq<Row>, ou: string, d: string): (r: seq<Row>)
    ensures forall x :: x in r <==> x in rows && x.ouName == ou && x.division.name == d
  {
    if rows == [] then []
    else
      assert rows == [rows[0]] + rows[1..];
      (if rows[0].ouName == ou && rows[0].division.name == d then [rows[0]] else []) + Scope(rows[1..], ou, d)
  }

  lemma {:induction false} DivisionRowsMembers(o: OrgUnit, divs: seq<Division>, u: Id, r: Row)
    ensures r in DivisionRows(o, divs, u) <==>
      r.ouId == o.id && r.ouName == o.name && r.division in divs && u in r.division.users
  {
    if divs != [] {
      DivisionRowsMembers(o, divs[1..], u, r);
      CountPositive(divs[0].users, u);
      var head := Repeat(Row(o.id, o.name, divs[0]), Count(divs[0].users, u));
      assert r in head <==> r == Row(o.id, o.name, divs[0]) && Count(divs[0].users, u) > 0 by {
        if r in head { assert head[0] == Row(o.id, o.name, divs[0]); }
      }
      assert divs == [divs[0]] + divs[1..];
    }
  }

  /** The rows are exactly the (org unit, division) pairs whose division lists `u`. */
  lemma {:induction false} RowsMembers(ous: seq<OrgUnit>, u: Id, r: Row)
    ensures r in Rows(ous, u) <==>
      exists i, j ::
        0 <= i < |ous| && 0 <= j < |ous[i].divisions| &&
        u in ous[i].divisions[j].users && r == Row(ous[i].id, ous[i].name, ous[i].divisions[j])
  {
    if ous != [] {
      RowsMembers(ous[1..], u, r);
      DivisionRowsMembers(ous[0], ous[0].divisions, u, r);
      if r in DivisionRows(ous[0], ous[0].divisions, u) {
        var j :| 0 <= j < |ous[0].divisions| && ous[0].divisions[j] == r.division;
        assert u in ous[0].divisions[j].users && r == Row(ous[0].id, ous[0].name, ous[0].divisions[j]);
      } else if r in Rows(ous[1..], u) {
        var i, j :| 0 <= i < |ous[1..]| && 0 <= j < |ous[1..][i].divisions| &&
          u in ous[1..][i].divisions[j].users && r == Row(ous[1..][i].id, ous[1..][i].name, ous[1..][i].divisions[j]);
        assert ous[1..][i] == ous[i + 1];
      }
      if exists i, j ::
           0 <= i < |ous| && 0 <= j < |ous[i].divisions| &&
           u in ous[i].divisions[j].users && r == Row(ous[i].id, ous[i].name, ous[i].divisions[j])
      {
        var i, j :| 0 <= i < |ous| && 0 <= j < |ous[i].divisions| &&
          u in ous[i].divisions[j].users && r == Row(ous[i].id, ous[i].name, ous[i].divisions[j]);
        if i == 0 {
          assert r.division in ous[0].divisions;
        } else {
          assert ous[1..][i - 1] == ous[i];
        }
      }
    }
  }

  /** The membership gates: the scoped pipeline is non-empty exactly for a member. */
  lemma ScopedRowsIffMember(ous: seq<OrgUnit>, u: Id, ou: string, d: string)
    ensures |Scope(Rows(ous, u), ou, d)| > 0 <==> IsMember(ous, u, ou, d)
  {
    var rows := Scope(Rows(ous, u), ou, d);
    if |rows| > 0 {
      var x := rows[0];
      assert x in rows;
      RowsMembers(ous, u, x);
    }
    if IsMember(ous, u, ou, d) {
      var i, j :| 0 <= i < |ous| && 0 <= j < |ous[i].divisions| &&
        ous[i].name == ou && ous[i].divisions[j].name == d && u in ous[i].divisions[j].users;
      var x := Row(ous[i].id, ous[i].name, ous[i].divisions[j]);
      RowsMembers(ous, u, x);
      assert x in rows;
    }
  }

  // ---------------------------------------------------------------------------
  // The credential scans over the gate's rows

  /** Some account in some row's division has this name and this username. */
  predicate RowsHoldPair(rows: seq<Row>, name: string, username: string) {
    exists i, k :: 0 <= i < |rows| && 0 <= k < |rows[i].division.accounts| &&
      rows[i].division.accounts[k].name == name && rows[i].division.accounts[k].username == username
  }

  /** Some division `(ou, d)` that lists `u` holds an account with this name and username. */
  ghost predicate MemberDivisionHoldsPair(ous: seq<OrgUnit>, u: Id, ou: string, d: string, name: string, username: string) {
    exists i, j, k :: 0 <= i < |ous| && 0 <= j < |ous[i].divisions| && 0 <= k < |ous[i].divisions[j].accounts| &&
      ous[i].name == ou && ous[i].divisions[j].name == d && u in ous[i].divisions[j].users &&
      ous[i].divisions[j].accounts[k].name == name && ous[i].divisions[j].accounts[k].username == username
  }

  /** A division `(ou, d)` listing `u` holds no account with this name and username when
      no such division does. */
  lemma DivisionLacksPair(ous: seq<OrgUnit>, u: Id, ou: string, d: string, name: string, username: string, i: nat, j: nat)
    requires i < |ous| && j < |ous[i].divisions| && ous[i].name == ou && ous[i].divisions[j].name == d
    requires u in ous[i].divisions[j].users && !MemberDivisionHoldsPair(ous, u, ou, d, name, username)
    ensures forall k :: 0 <= k < |ous[i].divisions[j].accounts| ==>
      ous[i].divisions[j].accounts[k].name != name || ous[i].divisions[j].accounts[k].username != username
  {
  }

  /** Scanning the gate's rows is scanning the divisions `(ou, d)` the caller belongs to. */
  lemma ScopedPairIff(ous: seq<OrgUnit>, u: Id, ou: string, d: string, name: string, username: string)
    ensures RowsHoldPair(Scope(Rows(ous, u), ou, d), name, username) <==>
      MemberDivisionHoldsPair(ous, u, ou, d, name, username)
  {
    var rows := Scope(Rows(ous, u), ou, d);
    if RowsHoldPair(rows, name, username) {
      var x, k :| 0 <= x < |rows| && 0 <= k < |rows[x].division.accounts| &&
        rows[x].division.accounts[k].name == name && rows[x].division.accounts[k].username == username;
      assert rows[x] in rows;
      RowsMembers(ous, u, rows[x]);
      var i, j :| 0 <= i < |ous| && 0 <= j < |ous[i].divisions| &&
        u in ous[i].divisions[j].users && rows[x] == Row(ous[i].id, ous[i].name, ous[i].divisions[j]);
      assert ous[i].divisions[j].accounts[k] == rows[x].division.accounts[k];
    }
    if MemberDivisionHoldsPair(ous, u, ou, d, name, username) {
      var i, j, k :| 0 <= i < |ous| && 0 <= j < |ous[i].divisions| && 0 <= k < |ous[i].divisions[j].accounts| &&
        ous[i].name == ou && ous[i].divisions[j].name == d && u in ous[i].divisions[j].users &&
        ous[i].divisions[j].accounts[k].name == name && ous[i].divisions[j].accounts[k].username == username;
      var r := Row(ous[i].id, ous[i].name, ous[i].divisions[j]);
      RowsMembers(ous, u, r);
      assert r in rows;
      var x :| 0 <= x < |rows| && rows[x] == r;
      assert rows[x].division.accounts[k] == ous[i].divisions[j].accounts[k];
    }
  }

  // ---------------------------------------------------------------------------
  // $group by org-unit id

  predicate IdAbsent<T>(acc: seq<Entry<T>>, id: Id) {
    forall k :: 0 <= k < |acc| ==> acc[k].id != id
  }

  /** One document folded into the groups: pushed onto its org unit's group, or a new group. */
  function Insert<T>(acc: seq<Entry<T>>, id: Id, name: string, item: T): seq<Entry<T>>
  {
    if acc == [] then [Entry(id, name, [item])]
    else if acc[0].id == id then [acc[0].(items := acc[0].items + [item])] + acc[1..]
    else [acc[0]] + Insert(acc[1..], id, name, item)
  }

  function GroupInto<T>(acc: seq<Entry<T>>, rows: seq<Row>, proj: Division -> T): seq<Entry<T>>
    decreases |rows|
  {
    if rows == [] then acc
    else GroupInto(Insert(acc, rows[0].ouId, rows[0].ouName, proj(rows[0].division)), rows[1..], proj)
  }

  /** `$group: {_id: '$_id', name: {$first: '$name'}, divisions: {$push: proj}}`. */
  function Group<T>(rows: seq<Row>, proj: Division -> T): seq<Entry<T>>
  {
    GroupInto([], rows, proj)
  }

  function Project<T>(rows: seq<Row>, proj: Division -> T): (r: seq<T>)
    ensures |r| == |rows|
  {
    if rows == [] then [] else [proj(rows[0].division)] + Project(rows[1..], proj)
  }

  lemma {:induction false} ProjectAppend<T>(a: seq<Row>, b: seq<Row>, proj: Division -> T)
    ensures Project(a + b, proj) == Project(a, proj) + Project(b, proj)
  {
    if a == [] {
      assert a + b == b;
    } else {
      assert (a + b)[1..] == a[1..] + b;
      ProjectAppend(a[1..], b, proj);
    }
  }

  lemma {:induction false} GroupIntoAppend<T>(acc: seq<Entry<T>>, a: seq<Row>, b: seq<Row>, proj: Division -> T)
    ensures GroupInto(acc, a + b, proj) == GroupInto(GroupInto(acc, a, proj), b, proj)
    decreases |a|
  {
    if a == [] {
      assert a + b == b;
    } else {
      assert (a + b)[0] == a[0] && (a + b)[1..] == a[1..] + b;
      GroupIntoAppend(Insert(acc, a[0].ouId, a[0].ouName, proj(a[0].division)), a[1..], b, proj);
    }
  }

  lemma {:induction false} InsertNew<T>(acc: seq<Entry<T>>, id: Id, name: string, item: T)
    requires IdAbsent(acc, id)
    ensures Insert(acc, id, name, item) == acc + [Entry(id, name, [item])]
  {
    if acc != [] {
      InsertNew(acc[1..], id, name, item);
      assert acc == [acc[0]] + acc[1..];
    }
  }

  lemma {:induction false} InsertLast<T>(acc: seq<Entry<T>>, id: Id, name: string, items: seq<T>, other: string, item: T)
    requires IdAbsent(acc, id)
    ensures Insert(acc + [Entry(id, name, items)], id, other, item) == acc + [Entry(id, name, items + [item])]
  {
    if acc == [] {
    } else {
      assert (acc + [Entry(id, name, items)])[1..] == acc[1..] + [Entry(id, name, items)];
      InsertLast(acc[1..], id, name, items, other, item);
      assert acc == [acc[0]] + acc[1..];
    }
  }

  /** Rows of one org unit extend that org unit's group, the last one. */
  lemma {:induction false} GroupIntoLast<T>(acc: seq<Entry<T>>, id: Id, name: string, items: seq<T>, rows: seq<Row>, proj: Division -> T)
    requires IdAbsent(acc, id)
    requires forall k :: 0 <= k < |rows| ==> rows[k].ouId == id
    ensures GroupInto(acc + [Entry(id, name, items)], rows, proj) == acc + [Entry(id, name, items + Project(rows, proj))]
    decreases |rows|
  {
    if rows != [] {
      var v := proj(rows[0].division);
      assert rows[0].ouId == id;
      InsertLast(acc, id, name, items, rows[0].ouName, v);
      assert GroupInto(acc + [Entry(id, name, items)], rows, proj) ==
        GroupInto(acc + [Entry(id, name, items + [v])], rows[1..], proj);
      assert forall k :: 0 <= k < |rows[1..]| ==> rows[1..][k] == rows[k + 1];
      GroupIntoLast(acc, id, name, items + [v], rows[1..], proj);
      assert Project(rows, proj) == [v] + Project(rows[1..], proj);
      assert items + [v] + Project(rows[1..], proj) == items + Project(rows, proj);
    } else {
      assert items + Project(rows, proj) == items;
    }
  }

  /** The rows of one org unit, whose id no earlier group has, form one new group. */
  lemma {:induction false} GroupIntoUnit<T>(acc: seq<Entry<T>>, o: OrgUnit, u: Id, proj: Division -> T)
    requires IdAbsent(acc, o.id)
    ensures GroupInto(acc, DivisionRows(o, o.divisions, u), proj) ==
      var items := Project(DivisionRows(o, o.divisions, u), proj);
      if items == [] then acc else acc + [Entry(o.id, o.name, items)]
  {
    var rows := DivisionRows(o, o.divisions, u);
    forall r | r in rows ensures r.ouId == o.id && r.ouName == o.name {
      DivisionRowsMembers(o, o.divisions, u, r);
    }
    if rows != [] {
      assert rows[0] in rows;
      InsertNew(acc, o.id, o.name, proj(rows[0].division));
      assert forall k :: 0 <= k < |rows[1..]| ==> rows[1..][k] in rows;
      GroupIntoLast(acc, o.id, o.name, [proj(rows[0].division)], rows[1..], proj);
    }
  }

  // ---------------------------------------------------------------------------
  // The per-org-unit meaning of the listings

  /** What one org unit contributes to a listing: `proj` of each division listing `u`,
      repeated once for each time `u` is listed. */
  function Items<T>(divs: seq<Division>, u: Id, proj: Division -> T): seq<T>
  {
    if divs == [] then [] else Repeat(proj(divs[0]), Count(divs[0].users, u)) + Items(divs[1..], u, proj)
  }

  /** One entry per org unit with at least one division listing `u`, in store order. */
  function Direct<T>(ous: seq<OrgUnit>, u: Id, proj: Division -> T): seq<Entry<T>>
  {
    if ous == [] then []
    else
      var items := Items(ous[0].divisions, u, proj);
      (if items == [] then [] else [Entry(ous[0].id, ous[0].name, items)]) + Direct(ous[1..], u, proj)
  }

  /** MongoDB's unique `_id` index on the org units. */
  ghost predicate UniqueUnitIds(ous: seq<OrgUnit>) {
    forall a, b :: 0 <= a < b < |ous| ==> ous[a].id != ous[b].id
  }

  lemma {:induction false} ProjectRepeat<T>(r: Row, n: nat, proj: Division -> T)
    ensures Project(Repeat(r, n), proj) == Repeat(proj(r.division), n)
  {
    if n > 0 {
      assert Repeat(r, n)[1..] == Repeat(r, n - 1);
      ProjectRepeat(r, n - 1, proj);
    }
  }

  lemma {:induction false} ProjectDivisionRows<T>(o: OrgUnit, divs: seq<Division>, u: Id, proj: Division -> T)
    ensures Project(DivisionRows(o, divs, u), proj) == Items(divs, u, proj)
  {
    if divs != [] {
      var head := Repeat(Row(o.id, o.name, divs[0]), Count(divs[0].users, u));
      ProjectAppend(head, DivisionRows(o, divs[1..], u), proj);
      ProjectRepeat(Row(o.id, o.name, divs[0]), Count(divs[0].users, u), proj);
      ProjectDivisionRows(o, divs[1..], u, proj);
    }
  }

  lemma {:induction false} DirectIds<T>(ous: seq<OrgUnit>, u: Id, proj: Division -> T, id: Id)
    requires forall k :: 0 <= k < |ous| ==> ous[k].id != id
    ensures IdAbsent(Direct(ous, u, proj), id)
  {
    if ous != [] {
      DirectIds(ous[1..], u, proj, id);
    }
  }

  lemma UniqueTail(ous: seq<OrgUnit>)
    requires UniqueUnitIds(ous) && ous != []
    ensures UniqueUnitIds(ous[1..])
  {
    forall a, b | 0 <= a < b < |ous[1..]| ensures ous[1..][a].id != ous[1..][b].id {
      assert ous[1..][a] == ous[a + 1] && ous[1..][b] == ous[b + 1];
    }
  }

  /** Appending the first org unit's group keeps the later org units' ids absent. */
  lemma TailIdsAbsent<T>(acc: seq<Entry<T>>, head: seq<Entry<T>>, ous: seq<OrgUnit>)
    requires UniqueUnitIds(ous) && ous != []
    requires forall k :: 0 <= k < |ous| ==> IdAbsent(acc, ous[k].id)
    requires forall e :: e in head ==> e.id == ous[0].id
    ensures forall k :: 0 <= k < |ous[1..]| ==> IdAbsent(acc + head, ous[1..][k].id)
  {
    forall k | 0 <= k < |ous[1..]| ensures IdAbsent(acc + head, ous[1..][k].id) {
      assert ous[1..][k] == ous[k + 1];
      assert IdAbsent(acc, ous[k + 1].id);
      forall m | 0 <= m < |acc + head| ensures (acc + head)[m].id != ous[k + 1].id {
        if m >= |acc| {
          assert (acc + head)[m] in head;
        }
      }
    }
  }

  lemma {:induction false} GroupIntoRows<T>(acc: seq<Entry<T>>, ous: seq<OrgUnit>, u: Id, proj: Division -> T)
    requires UniqueUnitIds(ous)
    requires forall k :: 0 <= k < |ous| ==> IdAbsent(acc, ous[k].id)
    ensures GroupInto(acc, Rows(ous, u), proj) == acc + Direct(ous, u, proj)
    decreases |ous|
  {
    if ous != [] {
      var o := ous[0];
      var tail := ous[1..];
      var rows := DivisionRows(o, o.divisions, u);
      var items := Items(o.divisions, u, proj);
      var head := if items == [] then [] else [Entry(o.id, o.name, items)];
      calc {
        GroupInto(acc, Rows(ous, u), proj);
        GroupInto(acc, rows + Rows(tail, u), proj);
        { GroupIntoAppend(acc, rows, Rows(tail, u), proj); }
        GroupInto(GroupInto(acc, rows, proj), Rows(tail, u), proj);
        { GroupIntoUnit(acc, o, u, proj);
          ProjectDivisionRows(o, o.divisions, u, proj);
          if items == [] { assert acc + head == acc; } }
        GroupInto(acc + head, Rows(tail, u), proj);
        { TailIdsAbsent(acc, head, ous); UniqueTail(ous); GroupIntoRows(acc + head, tail, u, proj); }
        (acc + head) + Direct(tail, u, proj);
        acc + (head + Direct(tail, u, proj));
        acc + Direct(ous, u, proj);
      }
    }
  }

  /** The pipeline (unwind, match, group) computes the per-org-unit listing. */
  lemma GroupMatchesDirect<T>(ous: seq<OrgUnit>, u: Id, proj: Division -> T)
    requires UniqueUnitIds(ous)
    ensures Group(Rows(ous, u), proj) == Direct(ous, u, proj)
  {
    GroupIntoRows([], ous, u, proj);
  }

  // ---------------------------------------------------------------------------
  // Properties of the listing

  lemma {:induction false} ItemsMembers<T>(divs: seq<Division>, u: Id, proj: Division -> T)
    ensures forall v :: v in Items(divs, u, proj) ==>
      exists j :: 0 <= j < |divs| && u in divs[j].users && v == proj(divs[j])
    ensures Items(divs, u, proj) != [] <==> exists j :: 0 <= j < |divs| && u in divs[j].users
  {
    if divs != [] {
      ItemsMembers(divs[1..], u, proj);
      CountPositive(divs[0].users, u);
      var head := Repeat(proj(divs[0]), Count(divs[0].users, u));
      forall v | v in Items(divs, u, proj)
        ensures exists j :: 0 <= j < |divs| && u in divs[j].users && v == proj(divs[j])
      {
        if v in head {
          assert u in divs[0].users && v == proj(divs[0]);
        } else {
          var j :| 0 <= j < |divs[1..]| && u in divs[1..][j].users && v == proj(divs[1..][j]);
          assert divs[1..][j] == divs[j + 1];
        }
      }
      if exists j :: 0 <= j < |divs| && u in divs[j].users {
        var j :| 0 <= j < |divs| && u in divs[j].users;
        if j > 0 { assert divs[1..][j - 1] == divs[j]; }
      }
    }
  }

  /** Every division listing `u` contributes its projection to the org unit's items. */
  lemma {:induction false} ItemsComplete<T>(divs: seq<Division>, u: Id, proj: Division -> T, j: nat)
    requires j < |divs| && u in divs[j].users
    ensures proj(divs[j]) in Items(divs, u, proj)
  {
    var head := Repeat(proj(divs[0]), Count(divs[0].users, u));
    if j == 0 {
      CountPositive(divs[0].users, u);
      assert head[0] == proj(divs[0]);
      assert (head + Items(divs[1..], u, proj))[0] == head[0];
    } else {
      assert divs[1..][j - 1] == divs[j];
      ItemsComplete(divs[1..], u, proj, j - 1);
      assert Items(divs, u, proj) == head + Items(divs[1..], u, proj);
    }
  }

  /** The listing as a filter: `proj` of each division listing `u`, once each. */
  function MemberItems<T>(divs: seq<Division>, u: Id, proj: Division -> T): seq<T>
  {
    if divs == [] then [] else (if u in divs[0].users then [proj(divs[0])] else []) + MemberItems(divs[1..], u, proj)
  }

  /** When no division lists a member twice, each division listing `u` contributes exactly one item. */
  lemma {:induction false} ItemsWithoutDuplicates<T>(divs: seq<Division>, u: Id, proj: Division -> T)
    requires forall j :: 0 <= j < |divs| ==> NoDup(divs[j].users)
    ensures Items(divs, u, proj) == MemberItems(divs, u, proj)
  {
    if divs != [] {
      CountNoDup(divs[0].users, u);
      ItemsWithoutDuplicates(divs[1..], u, proj);
    }
  }

  /** Every entry of the listing is an org unit, with its name and its non-empty items. */
  lemma {:induction false} DirectSound<T>(ous: seq<OrgUnit>, u: Id, proj: Division -> T, k: nat)
    requires k < |Direct(ous, u, proj)|
    ensures Direct(ous, u, proj)[k].items != []
    ensures exists i :: 0 <= i < |ous| &&
                        Direct(ous, u, proj)[k] == Entry(ous[i].id, ous[i].name, Items(ous[i].divisions, u, proj))
  {
    var items := Items(ous[0].divisions, u, proj);
    var head := if items == [] then [] else [Entry(ous[0].id, ous[0].name, items)];
    var tail := Direct(ous[1..], u, proj);
    assert Direct(ous, u, proj) == head + tail;
    if k < |head| {
      assert Direct(ous, u, proj)[k] == Entry(ous[0].id, ous[0].name, items);
    } else {
      assert Direct(ous, u, proj)[k] == tail[k - |head|];
      DirectSound(ous[1..], u, proj, k - |head|);
      var i :| 0 <= i < |ous[1..]| &&
        tail[k - |head|] == Entry(ous[1..][i].id, ous[1..][i].name, Items(ous[1..][i].divisions, u, proj));
      assert ous[1..][i] == ous[i + 1];
    }
  }

  /** Every org unit with a division listing `u` has an entry in the listing. */
  lemma {:induction false} DirectComplete<T>(ous: seq<OrgUnit>, u: Id, proj: Division -> T, i: nat)
    requires i < |ous| && Items(ous[i].divisions, u, proj) != []
    ensures exists k :: 0 <= k < |Direct(ous, u, proj)| && Direct(ous, u, proj)[k].id == ous[i].id
  {
    var items := Items(ous[0].divisions, u, proj);
    var head := if items == [] then [] else [Entry(ous[0].id, ous[0].name, items)];
    var tail := Direct(ous[1..], u, proj);
    assert Direct(ous, u, proj) == head + tail;
    if i == 0 {
      assert Direct(ous, u, proj)[0].id == ous[0].id;
    } else {
      assert ous[1..][i - 1] == ous[i];
      DirectComplete(ous[1..], u, proj, i - 1);
      var k :| 0 <= k < |tail| && tail[k].id == ous[1..][i - 1].id;
      assert Direct(ous, u, proj)[|head| + k] == tail[k];
    }
  }

  /** Org-unit ids are unique in the listing. */
  lemma {:induction false} DirectDistinct<T>(ous: seq<OrgUnit>, u: Id, proj: Division -> T)
    requires UniqueUnitIds(ous)
    ensures forall a, b :: 0 <= a < b < |Direct(ous, u, proj)| ==> Direct(ous, u, proj)[a].id != Direct(ous, u, proj)[b].id
  {
    if ous != [] {
      assert UniqueUnitIds(ous[1..]) by {
        forall a, b | 0 <= a < b < |ous[1..]| ensures ous[1..][a].id != ous[1..][b].id {
          assert ous[1..][a] == ous[a + 1] && ous[1..][b] == ous[b + 1];
        }
      }
      DirectDistinct(ous[1..], u, proj);
      forall k | 0 <= k < |ous[1..]| ensures ous[1..][k].id != ous[0].id {
        assert ous[1..][k] == ous[k + 1];
      }
      DirectIds(ous[1..], u, proj, ous[0].id);
    }
  }
}
