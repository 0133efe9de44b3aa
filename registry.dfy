/** The group and membership registry (`BHFE_Groups_Database`): the groups table,
    each group owned by one administrator, and the members table, unique on
    (group, user), whose rows are deactivated rather than deleted. */
module Registry {
  import opened Php

  datatype Status = Active | Inactive

  datatype Group = Group(id: nat, name: string, adminUserId: nat, status: Status)

  datatype Member = Member(id: nat, groupId: nat, userId: nat, addedBy: nat, status: Status)

  // ---------------------------------------------------------------------------
  // ORDER BY name ASC

  /** Names compared character by character. */
  predicate NameLe(a: string, b: string) {
    a == [] || (b != [] && (a[0] < b[0] || (a[0] == b[0] && NameLe(a[1..], b[1..]))))
  }

  lemma {:induction false} NameLeTotal(a: string, b: string)
    ensures NameLe(a, b) || NameLe(b, a)
  {
    if a != [] && b != [] && a[0] == b[0] {
      NameLeTotal(a[1..], b[1..]);
    }
  }

  lemma {:induction false} NameLeTransitive(a: string, b: string, c: string)
    requires NameLe(a, b) && NameLe(b, c)
    ensures NameLe(a, c)
  {
    if a != [] && a[0] == b[0] && b[0] == c[0] {
      NameLeTransitive(a[1..], b[1..], c[1..]);
    }
  }

  predicate SortedByName(s: seq<Group>) {
    forall i, j :: 0 <= i < j < |s| ==> NameLe(s[i].name, s[j].name)
  }

  function InsertByName(g: Group, s: seq<Group>): (r: seq<Group>)
    requires SortedByName(s)
    ensures SortedByName(r) && multiset(r) == multiset(s) + multiset{g}
  {
    if s == [] then [g]
    else if NameLe(g.name, s[0].name) then
      BelowFirstBelowAll(g.name, s);
      ConsSorted(g, s);
      [g] + s
    else
      var rest := InsertByName(g, s[1..]);
      NameLeTotal(g.name, s[0].name);
      LowerBoundKept(g, s[1..], rest, s[0].name);
      ConsSorted(s[0], rest);
      assert s == [s[0]] + s[1..];
      [s[0]] + rest
  }

  lemma BelowFirstBelowAll(low: string, s: seq<Group>)
    requires SortedByName(s) && s != [] && NameLe(low, s[0].name)
    ensures forall j :: 0 <= j < |s| ==> NameLe(low, s[j].name)
  {
    forall j | 0 < j < |s| ensures NameLe(low, s[j].name) {
      NameLeTransitive(low, s[0].name, s[j].name);
    }
  }

  lemma ConsSorted(x: Group, t: seq<Group>)
    requires SortedByName(t) && forall j :: 0 <= j < |t| ==> NameLe(x.name, t[j].name)
    ensures SortedByName([x] + t)
  {
    var r := [x] + t;
    forall i, j | 0 <= i < j < |r| ensures NameLe(r[i].name, r[j].name) {
      assert r[j] == t[j - 1];
      if i > 0 { assert r[i] == t[i - 1]; }
    }
  }

  /** A name below `g`'s and every name in `s` is below every name in a permutation of `s` plus `g`. */
  lemma LowerBoundKept(g: Group, s: seq<Group>, rest: seq<Group>, low: string)
    requires multiset(rest) == multiset(s) + multiset{g}
    requires NameLe(low, g.name) && forall j :: 0 <= j < |s| ==> NameLe(low, s[j].name)
    ensures forall j :: 0 <= j < |rest| ==> NameLe(low, rest[j].name)
  {
    forall j | 0 <= j < |rest| ensures NameLe(low, rest[j].name) {
      var x := rest[j];
      assert x in multiset(rest);
      if x != g {
        assert x in multiset(s);
        var k :| 0 <= k < |s| && s[k] == x;
      }
    }
  }

  /** A stable insertion sort by name. */
  function SortByName(s: seq<Group>): (r: seq<Group>)
    ensures SortedByName(r) && multiset(r) == multiset(s)
  {
    if s == [] then []
    else
      assert s == [s[0]] + s[1..];
      InsertByName(s[0], SortByName(s[1..]))
  }

  predicate Distinct<T(==)>(s: seq<T>) {
    forall i, j :: 0 <= i < j < |s| ==> s[i] != s[j]
  }

  lemma {:induction false} MultiplicityOfDistinct<T>(s: seq<T>, x: T)
    requires Distinct(s)
    ensures multiset(s)[x] <= 1
  {
    if s != [] {
      assert s == [s[0]] + s[1..];
      MultiplicityOfDistinct(s[1..], x);
      if x == s[0] {
        assert x !in s[1..];
      }
    }
  }

  /** Reordering keeps a list free of repeats. */
  lemma DistinctPermutation<T>(a: seq<T>, b: seq<T>)
    requires multiset(a) == multiset(b) && Distinct(b)
    ensures Distinct(a)
  {
    forall i, j | 0 <= i < j < |a| ensures a[i] != a[j] {
      if a[i] == a[j] {
        assert a == a[..j] + [a[j]] + a[j + 1..];
        assert a[i] in multiset(a[..j]);
        MultiplicityOfDistinct(b, a[i]);
        assert false;
      }
    }
  }

  predicate IdsIncreasing(s: seq<Group>) {
    forall i, j :: 0 <= i < j < |s| ==> s[i].id < s[j].id
  }

  // ---------------------------------------------------------------------------
  // Queries over the tables

  predicate HasActiveMembership(members: seq<Member>, groupId: nat, userId: nat) {
    exists i :: 0 <= i < |members| && members[i].groupId == groupId && members[i].userId == userId &&
                members[i].status == Active
  }

  /** The groups, in table order, that are active and owned by `userId`. */
  function AdminGroups(groups: seq<Group>, userId: nat): (r: seq<Group>)
    ensures forall g :: g in r <==> g in groups && g.adminUserId == userId && g.status == Active
    ensures IdsIncreasing(groups) ==> IdsIncreasing(r)
  {
    if groups == [] then []
    else if groups[0].adminUserId == userId && groups[0].status == Active then
      [groups[0]] + AdminGroups(groups[1..], userId)
    else AdminGroups(groups[1..], userId)
  }

  /** The groups, in table order, that are active and hold an active membership of `userId`
      (the inner join of groups and members). */
  function MemberGroups(groups: seq<Group>, members: seq<Member>, userId: nat): (r: seq<Group>)
    ensures forall g :: g in r <==> g in groups && g.status == Active && HasActiveMembership(members, g.id, userId)
    ensures IdsIncreasing(groups) ==> IdsIncreasing(r)
  {
    if groups == [] then []
    else if groups[0].status == Active && HasActiveMembership(members, groups[0].id, userId) then
      [groups[0]] + MemberGroups(groups[1..], members, userId)
    else MemberGroups(groups[1..], members, userId)
  }

  lemma IncreasingIdsDistinct(s: seq<Group>)
    requires IdsIncreasing(s)
    ensures Distinct(s)
  {
  }

  /** `SELECT COUNT(*)` of the active membership rows of (group, user). */
  function CountActiveMemberships(members: seq<Member>, groupId: nat, userId: nat): (c: nat)
    ensures c > 0 <==> HasActiveMembership(members, groupId, userId)
    ensures c <= |members|
  {
    if members == [] then 0
    else
      var last := members[|members| - 1];
      var c := CountActiveMemberships(members[..|members| - 1], groupId, userId)
               + if last.groupId == groupId && last.userId == userId && last.status == Active then 1 else 0;
      assert HasActiveMembership(members[..|members| - 1], groupId, userId) ==> HasActiveMembership(members, groupId, userId);
      c
  }

  /** `SELECT COUNT(*)` of the active groups with this id and administrator. */
  function CountAdministered(groups: seq<Group>, groupId: nat, userId: nat): (c: nat)
    ensures c > 0 <==> exists i :: 0 <= i < |groups| && groups[i].id == groupId &&
                                 groups[i].adminUserId == userId && groups[i].status == Active
  {
    if groups == [] then 0
    else
      var last := groups[|groups| - 1];
      var c := CountAdministered(groups[..|groups| - 1], groupId, userId)
               + if last.id == groupId && last.adminUserId == userId && last.status == Active then 1 else 0;
      assert forall i :: 0 <= i < |groups| - 1 ==> groups[..|groups| - 1][i] == groups[i];
      c
  }

  // ---------------------------------------------------------------------------
  // The members table as a value

  /** The members table's unique key (group_id, user_id). */
  predicate UniquePairs(members: seq<Member>) {
    forall i, j :: 0 <= i < j < |members| ==>
      !(members[i].groupId == members[j].groupId && members[i].userId == members[j].userId)
  }

  predicate IsPair(m: Member, groupId: nat, userId: nat) {
    m.groupId == groupId && m.userId == userId
  }

  /** The number of rows, whatever their status, for (group, user). */
  function PairCount(members: seq<Member>, groupId: nat, userId: nat): nat {
    if members == [] then 0
    else PairCount(members[..|members| - 1], groupId, userId)
         + if IsPair(members[|members| - 1], groupId, userId) then 1 else 0
  }

  /** The row of (group, user), if there is one. */
  function MemberIndex(members: seq<Member>, groupId: nat, userId: nat): (r: Option<nat>)
    ensures r.Some? ==> r.value < |members| && IsPair(members[r.value], groupId, userId)
    ensures r.None? ==> forall i :: 0 <= i < |members| ==> !IsPair(members[i], groupId, userId)
  {
    if members == [] then None
    else if IsPair(members[|members| - 1], groupId, userId) then Some(|members| - 1)
    else MemberIndex(members[..|members| - 1], groupId, userId)
  }

  /** The members table and the id `add_member` returns: an existing row for the pair,
      whatever its status, is reactivated and takes the new `added_by`; otherwise one
      active row is appended under the next id. */
  function MemberAdded(members: seq<Member>, nextId: nat, groupId: nat, userId: nat, addedBy: nat): (seq<Member>, nat) {
    match MemberIndex(members, groupId, userId)
    case Some(i) => (members[i := members[i].(status := Active, addedBy := addedBy)], members[i].id)
    case None => (members + [Member(nextId, groupId, userId, addedBy, Active)], nextId)
  }

  /** The members table after `remove_member`: the pair's rows become inactive. */
  function MemberRemoved(members: seq<Member>, groupId: nat, userId: nat): seq<Member> {
    seq(|members|, i requires 0 <= i < |members| =>
      if IsPair(members[i], groupId, userId) then members[i].(status := Inactive) else members[i])
  }

  lemma {:induction false} PairCountAppend(members: seq<Member>, m: Member, groupId: nat, userId: nat)
    ensures PairCount(members + [m], groupId, userId) ==
            PairCount(members, groupId, userId) + if IsPair(m, groupId, userId) then 1 else 0
  {
    assert (members + [m])[..|members|] == members;
  }

  lemma {:induction false} PairCountZero(members: seq<Member>, groupId: nat, userId: nat)
    requires forall i :: 0 <= i < |members| ==> !IsPair(members[i], groupId, userId)
    ensures PairCount(members, groupId, userId) == 0
  {
    if members != [] {
      PairCountZero(members[..|members| - 1], groupId, userId);
    }
  }

  lemma {:induction false} PairCountOne(members: seq<Member>, k: nat, groupId: nat, userId: nat)
    requires k < |members| && IsPair(members[k], groupId, userId)
    requires forall i :: 0 <= i < |members| && i != k ==> !IsPair(members[i], groupId, userId)
    ensures PairCount(members, groupId, userId) == 1
  {
    var prefix := members[..|members| - 1];
    if k == |members| - 1 {
      PairCountZero(prefix, groupId, userId);
    } else {
      PairCountOne(prefix, k, groupId, userId);
    }
  }

  /** `add_member` never leaves two rows for one (group, user): afterwards the pair has
      exactly one row, it is active and records the new `added_by`, and the key stays unique. */
  lemma AddMemberSingleRow(members: seq<Member>, nextId: nat, groupId: nat, userId: nat, addedBy: nat)
    requires UniquePairs(members)
    ensures var (after, id) := MemberAdded(members, nextId, groupId, userId, addedBy);
            UniquePairs(after) && PairCount(after, groupId, userId) == 1 &&
            exists k :: 0 <= k < |after| && IsPair(after[k], groupId, userId) && after[k].id == id &&
                        after[k].status == Active && after[k].addedBy == addedBy
  {
    var (after, id) := MemberAdded(members, nextId, groupId, userId, addedBy);
    match MemberIndex(members, groupId, userId)
    case Some(i) =>
      PairCountOne(after, i, groupId, userId);
    case None =>
      PairCountOne(after, |members|, groupId, userId);
  }

  /** Adding a pair that already has a row, active or not, returns that row's id and
      changes nothing but that row's status and `added_by`. */
  lemma AddExistingMemberReactivates(members: seq<Member>, nextId: nat, k: nat, addedBy: nat)
    requires UniquePairs(members) && k < |members|
    ensures var m := members[k];
            MemberAdded(members, nextId, m.groupId, m.userId, addedBy) ==
            (members[k := m.(status := Active, addedBy := addedBy)], m.id)
  {
    var m := members[k];
    var i := MemberIndex(members, m.groupId, m.userId).value;
    assert i == k;
  }

  /** `remove_member` is a soft delete: no row disappears, the pair's row becomes
      inactive, every other row is unchanged, and an absent pair leaves the table as it was. */
  lemma RemoveMemberIsSoft(members: seq<Member>, groupId: nat, userId: nat)
    ensures var after := MemberRemoved(members, groupId, userId);
            |after| == |members| &&
            (forall i :: 0 <= i < |members| ==>
               && after[i].id == members[i].id
               && (IsPair(members[i], groupId, userId) ==> after[i] == members[i].(status := Inactive))
               && (!IsPair(members[i], groupId, userId) ==> after[i] == members[i])) &&
            !HasActiveMembership(after, groupId, userId) &&
            ((forall i :: 0 <= i < |members| ==> !IsPair(members[i], groupId, userId)) ==> after == members)
  {
  }

  /** Add, remove, add: the pair ends with exactly one row, and it is active. */
  lemma AddRemoveAddSingleActiveRow(members: seq<Member>, nextId: nat, groupId: nat, userId: nat, by1: nat, by2: nat)
    requires UniquePairs(members)
    ensures var (m1, _) := MemberAdded(members, nextId, groupId, userId, by1);
            var m2 := MemberRemoved(m1, groupId, userId);
            var (m3, _) := MemberAdded(m2, nextId + 1, groupId, userId, by2);
            PairCount(m3, groupId, userId) == 1 && HasActiveMembership(m3, groupId, userId)
  {
    var (m1, _) := MemberAdded(members, nextId, groupId, userId, by1);
    AddMemberSingleRow(members, nextId, groupId, userId, by1);
    var m2 := MemberRemoved(m1, groupId, userId);
    assert UniquePairs(m2);
    var (m3, id3) := MemberAdded(m2, nextId + 1, groupId, userId, by2);
    AddMemberSingleRow(m2, nextId + 1, groupId, userId, by2);
    var k :| 0 <= k < |m3| && IsPair(m3[k], groupId, userId) && m3[k].id == id3 && m3[k].status == Active;
    assert m3[k].groupId == groupId;
  }

  // ---------------------------------------------------------------------------
  // The tables

  class GroupsDatabase {
    var groups: seq<Group>
    var members: seq<Member>
    var nextGroupId: nat
    var nextMemberId: nat

    /** AUTO_INCREMENT ids in insertion order, and the members unique key. */
    ghost predicate Valid()
      reads this
    {
      nextGroupId > 0 && nextMemberId > 0 &&
      (forall i :: 0 <= i < |groups| ==> 0 < groups[i].id < nextGroupId) &&
      IdsIncreasing(groups) &&
      WellKeyed(members, nextMemberId)
    }

    constructor ()
      ensures Valid()
      ensures groups == [] && members == [] && nextGroupId == 1 && nextMemberId == 1
    {
      groups, members := [], [];
      nextGroupId, nextMemberId := 1, 1;
    }

    /** `create_group`: an active group owned by its creator; the creator is not made a member. */
    method CreateGroup(name: string, adminUserId: nat) returns (id: nat)
      requires Valid()
      modifies this
      ensures Valid()
      ensures id == old(nextGroupId) && forall g :: g in old(groups) ==> g.id < id
      ensures groups == old(groups) + [Group(id, name, adminUserId, Active)]
      ensures members == old(members) && nextMemberId == old(nextMemberId)
      ensures IsGroupAdmin(adminUserId, id)
    {
      id := nextGroupId;
      groups := groups + [Group(id, name, adminUserId, Active)];
      nextGroupId := nextGroupId + 1;
      assert forall i :: 0 <= i < |groups| - 1 ==> groups[i] == old(groups)[i];
      assert groups[|groups| - 1].id == id;
    }

    /** `get_groups_by_admin`: the user's active groups, by name. */
    function GetGroupsByAdmin(userId: nat): (r: seq<Group>)
      reads this
      requires Valid()
      ensures SortedByName(r) && Distinct(r)
      ensures forall g :: g in r <==> g in groups && g.adminUserId == userId && g.status == Active
    {
      var found := AdminGroups(groups, userId);
      var r := SortByName(found);
      assert forall g :: g in r <==> g in multiset(r);
      assert forall g :: g in found <==> g in multiset(found);
      DistinctPermutation(r, found);
      r
    }

    /** `get_user_groups`: the active groups in which the user has an active membership,
        each once, by name. */
    function GetUserGroups(userId: nat): (r: seq<Group>)
      reads this
      requires Valid()
      ensures SortedByName(r) && Distinct(r)
      ensures forall g :: g in r <==> g in groups && g.status == Active && HasActiveMembership(members, g.id, userId)
    {
      var found := MemberGroups(groups, members, userId);
      var r := SortByName(found);
      assert forall g :: g in r <==> g in multiset(r);
      assert forall g :: g in found <==> g in multiset(found);
      DistinctPermutation(r, found);
      r
    }

    /** `is_group_member`: a count of active rows for the pair, positive exactly when
        an active row exists. */
    function IsGroupMember(userId: nat, groupId: nat): (b: bool)
      reads this
      ensures b <==> HasActiveMembership(members, groupId, userId)
    {
      CountActiveMemberships(members, groupId, userId) > 0
    }

    /** `is_group_admin`: the group exists, is active, and `userId` administers it. */
    function IsGroupAdmin(userId: nat, groupId: nat): (b: bool)
      reads this
      ensures b <==> exists i :: 0 <= i < |groups| && groups[i].id == groupId &&
                               groups[i].adminUserId == userId && groups[i].status == Active
    {
      CountAdministered(groups, groupId, userId) > 0
    }

    /** `SELECT id … WHERE group_id AND user_id`: the id of the pair's row, if any. */
    method FindMemberId(groupId: nat, userId: nat) returns (r: Option<nat>)
      requires Valid()
      ensures r.Some? <==> MemberIndex(members, groupId, userId).Some?
      ensures r.Some? ==> r.value == members[MemberIndex(members, groupId, userId).value].id
    {
      var i := 0;
      while i < |members|
        invariant 0 <= i <= |members|
        invariant forall k :: 0 <= k < i ==> !IsPair(members[k], groupId, userId)
      {
        if IsPair(members[i], groupId, userId) {
          var k := MemberIndex(members, groupId, userId).value;
          assert k == i;
          return Some(members[i].id);
        }
        i := i + 1;
      }
      return None;
    }

    /** `add_member`: reactivate the pair's row if there is one, else insert an active row. */
    method AddMember(groupId: nat, userId: nat, addedBy: nat) returns (id: nat)
      requires Valid()
      modifies this
      ensures Valid()
      ensures (members, id) == MemberAdded(old(members), old(nextMemberId), groupId, userId, addedBy)
      ensures groups == old(groups) && nextGroupId == old(nextGroupId)
      ensures nextMemberId == if MemberIndex(old(members), groupId, userId).Some? then old(nextMemberId)
                              else old(nextMemberId) + 1
    {
      var existing := FindMemberId(groupId, userId);
      MemberAddedWellKeyed(members, nextMemberId, groupId, userId, addedBy);
      if existing.Some? {
        // UPDATE … SET status = 'active', added_by WHERE id = existing
        var k := MemberIndex(members, groupId, userId).value;
        var updated := ActivateRow(members, existing.value, addedBy);
        ReactivatedIsUpdate(members, nextMemberId, k, addedBy);
        members := updated;
        return existing.value;
      }
      id := nextMemberId;
      members := members + [Member(id, groupId, userId, addedBy, Active)];
      nextMemberId := nextMemberId + 1;
    }

    /** `remove_member`: deactivate the pair's row; the rows it changed (MySQL counts a
        row as affected only when a value changes). */
    method RemoveMember(groupId: nat, userId: nat) returns (affected: nat)
      requires Valid()
      modifies this
      ensures Valid()
      ensures members == MemberRemoved(old(members), groupId, userId)
      ensures affected == if HasActiveMembership(old(members), groupId, userId) then 1 else 0
      ensures groups == old(groups) && nextGroupId == old(nextGroupId) && nextMemberId == old(nextMemberId)
    {
      var updated;
      updated, affected := DeactivatePair(members, groupId, userId);
      AtMostOneActive(members, groupId, userId);
      MemberRemovedWellKeyed(members, nextMemberId, groupId, userId);
      members := updated;
    }
  }

  /** The members table's AUTO_INCREMENT ids in insertion order, and its unique key. */
  predicate WellKeyed(members: seq<Member>, nextId: nat) {
    nextId > 0 &&
    (forall i :: 0 <= i < |members| ==> 0 < members[i].id < nextId) &&
    (forall i, j :: 0 <= i < j < |members| ==> members[i].id < members[j].id) &&
    UniquePairs(members)
  }

  /** The rows whose id is `rowId`, set active with the new `added_by`. */
  function Reactivated(members: seq<Member>, rowId: nat, addedBy: nat): (r: seq<Member>)
    ensures |r| == |members|
  {
    seq(|members|, j requires 0 <= j < |members| =>
      if members[j].id == rowId then members[j].(status := Active, addedBy := addedBy) else members[j])
  }

  /** `UPDATE … SET status = 'active', added_by = … WHERE id = …` over the table. */
  method ActivateRow(members: seq<Member>, rowId: nat, addedBy: nat) returns (updated: seq<Member>)
    ensures updated == Reactivated(members, rowId, addedBy)
  {
    updated := members;
    var i := 0;
    while i < |updated|
      invariant 0 <= i <= |updated| && |updated| == |members|
      invariant forall j :: 0 <= j < |updated| ==>
                  updated[j] == if j < i then Reactivated(members, rowId, addedBy)[j] else members[j]
    {
      if updated[i].id == rowId {
        updated := updated[i := updated[i].(status := Active, addedBy := addedBy)];
      }
      i := i + 1;
    }
  }

  /** Ids are distinct, so updating by the id of row `k` updates row `k` alone. */
  lemma ReactivatedIsUpdate(members: seq<Member>, nextId: nat, k: nat, addedBy: nat)
    requires WellKeyed(members, nextId) && k < |members|
    ensures Reactivated(members, members[k].id, addedBy) == members[k := members[k].(status := Active, addedBy := addedBy)]
  {
    forall j | 0 <= j < |members| && j != k ensures members[j].id != members[k].id {
      if j < k { assert members[j].id < members[k].id; }
      else { assert members[k].id < members[j].id; }
    }
  }

  /** `UPDATE … SET status = 'inactive' WHERE group_id AND user_id`, counting the rows it changed. */
  method DeactivatePair(members: seq<Member>, groupId: nat, userId: nat) returns (updated: seq<Member>, affected: nat)
    ensures updated == MemberRemoved(members, groupId, userId)
    ensures affected == CountActiveMemberships(members, groupId, userId)
  {
    updated, affected := members, 0;
    var i := 0;
    while i < |updated|
      invariant 0 <= i <= |updated| && |updated| == |members|
      invariant forall j :: 0 <= j < |updated| ==>
                  updated[j] == if j < i then MemberRemoved(members, groupId, userId)[j] else members[j]
      invariant affected == CountActiveMemberships(members[..i], groupId, userId)
    {
      assert members[..i + 1][..i] == members[..i];
      if IsPair(updated[i], groupId, userId) {
        if updated[i].status == Active {
          affected := affected + 1;
        }
        updated := updated[i := updated[i].(status := Inactive)];
      }
      i := i + 1;
    }
    assert members[..|members|] == members;
  }

  /** `add_member` keeps the ids ordered and the key unique. */
  lemma MemberAddedWellKeyed(members: seq<Member>, nextId: nat, groupId: nat, userId: nat, addedBy: nat)
    requires WellKeyed(members, nextId)
    ensures WellKeyed(MemberAdded(members, nextId, groupId, userId, addedBy).0,
                      if MemberIndex(members, groupId, userId).Some? then nextId else nextId + 1)
  {
    AddMemberSingleRow(members, nextId, groupId, userId, addedBy);
  }

  /** `remove_member` keeps the ids ordered and the key unique. */
  lemma MemberRemovedWellKeyed(members: seq<Member>, nextId: nat, groupId: nat, userId: nat)
    requires WellKeyed(members, nextId)
    ensures WellKeyed(MemberRemoved(members, groupId, userId), nextId)
  {
  }

  /** The unique key allows at most one active row per pair. */
  lemma AtMostOneActive(members: seq<Member>, groupId: nat, userId: nat)
    requires UniquePairs(members)
    ensures CountActiveMemberships(members, groupId, userId) <= 1
  {
    if members != [] {
      var prefix := members[..|members| - 1];
      AtMostOneActive(prefix, groupId, userId);
      var last := members[|members| - 1];
      if IsPair(last, groupId, userId) {
        assert forall i :: 0 <= i < |prefix| ==> !IsPair(prefix[i], groupId, userId) by {
          forall i | 0 <= i < |prefix| ensures !IsPair(prefix[i], groupId, userId) {
            assert prefix[i] == members[i];
          }
        }
      }
    }
  }
}
