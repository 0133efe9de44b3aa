/** The enrollment ledger (`BHFE_Groups_Enrollment`): one row per course a group
    member was given, pinned to a course version. A row is billed once it carries an
    order id; until then an active row is pending for the group's invoice. */
module Enrollments {
  import opened Php
  import opened Platform

  datatype EnrollmentStatus = Pending | Active | Cancelled

  /** A row of the enrollments table. `enrolledAt` is the table's insertion clock;
      `orderId` is None while the row is unbilled. The table's `course_price` column is
      never written, so it is not part of the row. */
  datatype Enrollment = Enrollment(
    id: nat, groupId: nat, userId: nat, courseId: nat, courseVersion: nat,
    enrolledBy: nat, enrolledAt: nat, status: EnrollmentStatus, orderId: Option<nat>)

  /** The table with its AUTO_INCREMENT counter and insertion clock. */
  datatype EnrollmentTable = EnrollmentTable(rows: seq<Enrollment>, nextId: nat, clock: nat)

  /** Rows appear in insertion order: ids and insertion times increase along the table. */
  ghost predicate WellFormed(t: EnrollmentTable) {
    t.nextId > 0 &&
    (forall i :: 0 <= i < |t.rows| ==> 0 < t.rows[i].id < t.nextId && t.rows[i].enrolledAt < t.clock) &&
    (forall i, j :: 0 <= i < j < |t.rows| ==>
       t.rows[i].id < t.rows[j].id && t.rows[i].enrolledAt < t.rows[j].enrolledAt)
  }

  /** The same rows with only order ids or statuses changed keep the table well formed. */
  lemma SameKeysWellFormed(t: EnrollmentTable, rows: seq<Enrollment>)
    requires WellFormed(t) && |rows| == |t.rows|
    requires forall i :: 0 <= i < |rows| ==> rows[i].id == t.rows[i].id && rows[i].enrolledAt == t.rows[i].enrolledAt
    ensures WellFormed(t.(rows := rows))
  {
  }

  // ---------------------------------------------------------------------------
  // Queries

  /** Pending for billing: active and not yet linked to an order. */
  predicate IsPendingFor(e: Enrollment, groupId: int) {
    e.groupId == groupId && e.status == Active && e.orderId.None?
  }

  predicate AscendingByTime(s: seq<Enrollment>) {
    forall i, j :: 0 <= i < j < |s| ==> s[i].enrolledAt < s[j].enrolledAt
  }

  predicate DescendingByTime(s: seq<Enrollment>) {
    forall i, j :: 0 <= i < j < |s| ==> s[i].enrolledAt > s[j].enrolledAt
  }

  /** Rows drawn from the tail of an ascending table come after its first row. */
  lemma FollowsFirst(rows: seq<Enrollment>, rest: seq<Enrollment>)
    requires rows != [] && forall e :: e in rest ==> e in rows[1..]
    requires AscendingByTime(rows[1..]) ==> AscendingByTime(rest)
    ensures AscendingByTime(rows) ==> AscendingByTime([rows[0]] + rest)
  {
    if AscendingByTime(rows) {
      assert AscendingByTime(rows[1..]) by {
        forall i, j | 0 <= i < j < |rows[1..]|
          ensures rows[1..][i].enrolledAt < rows[1..][j].enrolledAt
        {
          assert rows[1..][i] == rows[i + 1] && rows[1..][j] == rows[j + 1];
        }
      }
      forall e | e in rest
        ensures rows[0].enrolledAt < e.enrolledAt
      {
        var k :| 0 <= k < |rows[1..]| && rows[1..][k] == e;
        assert rows[k + 1] == e;
      }
      var r := [rows[0]] + rest;
      forall i, j | 0 <= i < j < |r|
        ensures r[i].enrolledAt < r[j].enrolledAt
      {
        assert r[j] == rest[j - 1] && r[j] in rest;
        if i > 0 { assert r[i] == rest[i - 1]; }
      }
    }
  }

  /** `get_pending_enrollments`: the group's active, unbilled rows, oldest first. */
  function PendingEnrollments(rows: seq<Enrollment>, groupId: int): (r: seq<Enrollment>)
    ensures forall e :: e in r <==> e in rows && IsPendingFor(e, groupId)
    ensures AscendingByTime(rows) ==> AscendingByTime(r)
    ensures |r| <= |rows|
  {
    if rows == [] then []
    else if IsPendingFor(rows[0], groupId) then
      var rest := PendingEnrollments(rows[1..], groupId);
      FollowsFirst(rows, rest);
      [rows[0]] + rest
    else PendingEnrollments(rows[1..], groupId)
  }

  /** The group's rows with the given status (every status when None), in table order. */
  function RowsWithStatus(rows: seq<Enrollment>, groupId: int, status: Option<EnrollmentStatus>): (r: seq<Enrollment>)
    ensures forall e :: e in r <==> e in rows && e.groupId == groupId && (status.None? || e.status == status.value)
    ensures AscendingByTime(rows) ==> AscendingByTime(r)
  {
    if rows == [] then []
    else if rows[0].groupId == groupId && (status.None? || rows[0].status == status.value) then
      var rest := RowsWithStatus(rows[1..], groupId, status);
      FollowsFirst(rows, rest);
      [rows[0]] + rest
    else RowsWithStatus(rows[1..], groupId, status)
  }

  function Reversed<T>(s: seq<T>): (r: seq<T>)
    ensures |r| == |s| && forall i :: 0 <= i < |s| ==> r[i] == s[|s| - 1 - i]
  {
    seq(|s|, i requires 0 <= i < |s| => s[|s| - 1 - i])
  }

  /** `get_group_enrollments`: the group's rows with the given status (the caller's
      default is Active; None stands for an empty status, which filters nothing),
      newest first. */
  function GroupEnrollments(rows: seq<Enrollment>, groupId: int, status: Option<EnrollmentStatus>): (r: seq<Enrollment>)
    ensures forall e :: e in r <==> e in rows && e.groupId == groupId && (status.None? || e.status == status.value)
    ensures AscendingByTime(rows) ==> DescendingByTime(r)
  {
    var found := RowsWithStatus(rows, groupId, status);
    var r := Reversed(found);
    assert forall e :: e in r <==> e in found by {
      forall e ensures e in r <==> e in found {
        if e in found {
          var k :| 0 <= k < |found| && found[k] == e;
          assert r[|found| - 1 - k] == e;
        }
      }
    }
    r
  }

  /** `get_course_price`: the price of the product the course links to, 0 when the
      course links to none or the product cannot be loaded. */
  function CoursePrice(cat: Catalog, courseId: nat): (p: nat)
    ensures p > 0 ==> var linked := PostMeta(cat.linkedIdMeta, courseId);
                      Truthy(linked) && AllDigits(linked) && DigitsValue(linked) in cat.productPrice &&
                      p == cat.productPrice[DigitsValue(linked)]
    ensures var linked := PostMeta(cat.linkedIdMeta, courseId);
            Truthy(linked) && AllDigits(linked) && DigitsValue(linked) in cat.productPrice ==>
              p == cat.productPrice[DigitsValue(linked)]
    ensures !Truthy(PostMeta(cat.linkedIdMeta, courseId)) ==> p == 0
  {
    var linked := PostMeta(cat.linkedIdMeta, courseId);
    if Truthy(linked) && AllDigits(linked) && DigitsValue(linked) in cat.productPrice
    then cat.productPrice[DigitsValue(linked)]
    else 0
  }

  /** A course linked to a product that loads costs that product's price; an unlinked
      course costs nothing. */
  lemma CoursePriceOfLinkedProduct(cat: Catalog, courseId: nat, productId: nat)
    requires productId > 0 && productId in cat.productPrice
    requires PostMeta(cat.linkedIdMeta, courseId) == NatToString(productId)
    ensures CoursePrice(cat, courseId) == cat.productPrice[productId]
    ensures CoursePrice(cat.(linkedIdMeta := cat.linkedIdMeta - {courseId}), courseId) == 0
  {
    DigitsValueOfNatToString(productId);
    var s := NatToString(productId);
    if productId >= 10 {
      assert |s| >= 2 by { assert s == NatToString(productId / 10) + [DigitChar(productId % 10)]; }
    } else {
      assert s == [DigitChar(productId)];
    }
  }

  // ---------------------------------------------------------------------------
  // Transitions

  predicate IsLive(e: Enrollment) {
    e.status != Cancelled
  }

  predicate SameTuple(e: Enrollment, groupId: nat, userId: nat, courseId: int, version: int) {
    e.groupId == groupId && e.userId == userId && e.courseId == courseId && e.courseVersion == version
  }

  /** The duplicate check of `enroll_user`: a non-cancelled row for the exact tuple. */
  predicate HasLive(rows: seq<Enrollment>, groupId: nat, userId: nat, courseId: int, version: int) {
    exists i :: 0 <= i < |rows| && SameTuple(rows[i], groupId, userId, courseId, version) && IsLive(rows[i])
  }

  /** `enroll_user`: the table afterwards and the result (the new id, or None for
      `false`). A duplicate leaves the table alone; otherwise one row is appended, and
      since the pending status it is inserted with is flipped to active straight after,
      it ends active and unbilled. The check compares the course and version as given,
      the insert stores their `absint`. */
  function Enroll(t: EnrollmentTable, groupId: nat, userId: nat, courseId: int, version: int,
                  enrolledBy: nat, currentUser: nat): (EnrollmentTable, Option<nat>)
  {
    if HasLive(t.rows, groupId, userId, courseId, version) then (t, None)
    else
      var enroller := if enrolledBy == 0 then currentUser else enrolledBy;
      var row := Enrollment(t.nextId, groupId, userId, Abs(courseId), Abs(version), enroller, t.clock, Active, None);
      (EnrollmentTable(t.rows + [row], t.nextId + 1, t.clock + 1), Some(t.nextId))
  }

  /** The rows after `unenroll_user`: every row of the tuple is cancelled. */
  function TupleCancelled(rows: seq<Enrollment>, groupId: nat, userId: nat, courseId: int, version: int): seq<Enrollment> {
    seq(|rows|, i requires 0 <= i < |rows| =>
      if SameTuple(rows[i], groupId, userId, Abs(courseId), Abs(version)) then rows[i].(status := Cancelled) else rows[i])
  }

  /** A duplicate is refused and changes nothing; otherwise exactly one row is added,
      active, unbilled, under a fresh id that is returned, enrolled by the given user or,
      when none is given, the current user; every earlier row is untouched. */
  lemma EnrollOutcome(t: EnrollmentTable, groupId: nat, userId: nat, courseId: int, version: int,
                      enrolledBy: nat, currentUser: nat)
    requires WellFormed(t)
    ensures var (after, r) := Enroll(t, groupId, userId, courseId, version, enrolledBy, currentUser);
            WellFormed(after) &&
            (HasLive(t.rows, groupId, userId, courseId, version) ==> r.None? && after == t) &&
            (!HasLive(t.rows, groupId, userId, courseId, version) ==>
               && r.Some? && |after.rows| == |t.rows| + 1 && after.rows[..|t.rows|] == t.rows
               && (forall i :: 0 <= i < |t.rows| ==> t.rows[i].id != r.value)
               && var e := after.rows[|t.rows|];
                  e.id == r.value && e.status == Active && e.orderId.None? &&
                  e.groupId == groupId && e.userId == userId &&
                  e.courseId == Abs(courseId) && e.courseVersion == Abs(version) &&
                  e.enrolledBy == (if enrolledBy == 0 then currentUser else enrolledBy) &&
                  IsPendingFor(e, groupId))
  {
    var (after, r) := Enroll(t, groupId, userId, courseId, version, enrolledBy, currentUser);
    if !HasLive(t.rows, groupId, userId, courseId, version) {
      assert after.rows[..|t.rows|] == t.rows;
      assert forall i :: 0 <= i < |after.rows| - 1 ==> after.rows[i] == t.rows[i];
    }
  }

  /** Once every row of a tuple is cancelled, enrolling the same tuple succeeds again:
      the duplicate check skips cancelled rows. */
  lemma {:induction false} ReenrollAfterCancel(t: EnrollmentTable, groupId: nat, userId: nat, courseId: int, version: int,
                                               enrolledBy: nat, currentUser: nat)
    ensures var cancelled := t.(rows := TupleCancelled(t.rows, groupId, userId, courseId, version));
            Enroll(cancelled, groupId, userId, courseId, version, enrolledBy, currentUser).1.Some?
  {
    var rows := TupleCancelled(t.rows, groupId, userId, courseId, version);
    forall i | 0 <= i < |rows| && SameTuple(rows[i], groupId, userId, courseId, version)
      ensures !IsLive(rows[i])
    {
      assert rows[i].courseId == t.rows[i].courseId && rows[i].courseVersion == t.rows[i].courseVersion;
      assert Abs(courseId) == courseId && Abs(version) == version;
    }
  }

  /** `unenroll_user` only cancels: it keeps every row, every order id and every other
      row as it was, and a cancelled row is no longer pending. */
  lemma UnenrollKeepsBilling(rows: seq<Enrollment>, groupId: nat, userId: nat, courseId: int, version: int, g: int)
    ensures var after := TupleCancelled(rows, groupId, userId, courseId, version);
            |after| == |rows| &&
            (forall i :: 0 <= i < |rows| ==>
               && after[i].id == rows[i].id && after[i].orderId == rows[i].orderId
               && (SameTuple(rows[i], groupId, userId, Abs(courseId), Abs(version)) ==>
                     after[i].status == Cancelled && !IsPendingFor(after[i], g))
               && (!SameTuple(rows[i], groupId, userId, Abs(courseId), Abs(version)) ==> after[i] == rows[i]))
  {
  }

  /** The two queries agree: the pending rows are the group's active rows without an order. */
  lemma PendingAreUnbilledActive(rows: seq<Enrollment>, groupId: int)
    ensures forall e :: e in PendingEnrollments(rows, groupId) <==>
                        e in GroupEnrollments(rows, groupId, Some(Active)) && e.orderId.None?
  {
  }

  /** The check compares the version as given but the insert stores its `absint`, so a
      negative version never meets the check: enrolling it twice leaves two live rows
      for one stored tuple. */
  lemma NegativeVersionEscapesDuplicateCheck(t: EnrollmentTable, groupId: nat, userId: nat, courseId: nat,
                                             version: int, admin: nat)
    requires version < 0
    ensures var (t1, r1) := Enroll(t, groupId, userId, courseId, version, admin, admin);
            var (t2, r2) := Enroll(t1, groupId, userId, courseId, version, admin, admin);
            r1.Some? && r2.Some? &&
            SameTuple(t2.rows[|t.rows|], groupId, userId, courseId, -version) && IsLive(t2.rows[|t.rows|]) &&
            SameTuple(t2.rows[|t.rows| + 1], groupId, userId, courseId, -version) && IsLive(t2.rows[|t.rows| + 1])
  {
    var (t1, r1) := Enroll(t, groupId, userId, courseId, version, admin, admin);
    assert !HasLive(t.rows, groupId, userId, courseId, version);
    assert !HasLive(t1.rows, groupId, userId, courseId, version);
  }

  // ---------------------------------------------------------------------------
  // The table

  /** Appending a row stamped with the next id and the current time keeps the table
      well formed. */
  lemma AppendWellFormed(t: EnrollmentTable, row: Enrollment)
    requires WellFormed(t) && row.id == t.nextId && row.enrolledAt == t.clock
    ensures WellFormed(EnrollmentTable(t.rows + [row], t.nextId + 1, t.clock + 1))
  {
    var rows := t.rows + [row];
    assert forall i :: 0 <= i < |t.rows| ==> rows[i] == t.rows[i];
  }

  class EnrollmentLedger {
    var rows: seq<Enrollment>
    var nextId: nat
    var clock: nat

    function Table(): EnrollmentTable
      reads this
    {
      EnrollmentTable(rows, nextId, clock)
    }

    ghost predicate Valid()
      reads this
    {
      WellFormed(Table())
    }

    constructor ()
      ensures Valid() && rows == [] && nextId == 1 && clock == 0
    {
      rows, nextId, clock := [], 1, 0;
    }

    /** `SELECT id … AND status != 'cancelled'`: the id of a live row of the tuple, if any. */
    method FindLive(groupId: nat, userId: nat, courseId: int, version: int) returns (r: Option<nat>)
      ensures r.Some? <==> HasLive(rows, groupId, userId, courseId, version)
      ensures r.Some? ==> exists i :: 0 <= i < |rows| && rows[i].id == r.value &&
                                      SameTuple(rows[i], groupId, userId, courseId, version) && IsLive(rows[i])
    {
      var i := 0;
      while i < |rows|
        invariant 0 <= i <= |rows|
        invariant forall k :: 0 <= k < i ==> !(SameTuple(rows[k], groupId, userId, courseId, version) && IsLive(rows[k]))
      {
        if SameTuple(rows[i], groupId, userId, courseId, version) && IsLive(rows[i]) {
          return Some(rows[i].id);
        }
        i := i + 1;
      }
      return None;
    }

    /** `UPDATE … SET status WHERE id`. */
    method SetStatus(id: nat, status: EnrollmentStatus)
      requires Valid()
      modifies this
      ensures Valid() && nextId == old(nextId) && clock == old(clock) && |rows| == |old(rows)|
      ensures forall i :: 0 <= i < |rows| ==>
                rows[i] == if old(rows)[i].id == id then old(rows)[i].(status := status) else old(rows)[i]
    {
      var updated := rows;
      var i := 0;
      while i < |updated|
        invariant 0 <= i <= |updated| && |updated| == |rows|
        invariant forall k :: 0 <= k < |updated| ==>
                    updated[k] == if k < i && rows[k].id == id then rows[k].(status := status) else rows[k]
      {
        if updated[i].id == id {
          updated := updated[i := updated[i].(status := status)];
        }
        i := i + 1;
      }
      SameKeysWellFormed(Table(), updated);
      rows := updated;
    }

    /** `enroll_user`: check, insert pending, (the learning platform's enrollment,
        which does not touch this table), flip to active. */
    method EnrollUser(groupId: nat, userId: nat, courseId: int, version: int, enrolledBy: nat, currentUser: nat)
      returns (r: Option<nat>)
      requires Valid()
      modifies this
      ensures Valid()
      ensures (Table(), r) == Enroll(old(Table()), groupId, userId, courseId, version, enrolledBy, currentUser)
    {
      ghost var t0 := Table();
      var enroller := if enrolledBy == 0 then currentUser else enrolledBy;
      var existing := FindLive(groupId, userId, courseId, version);
      if existing.Some? {
        return None;
      }
      var id := nextId;
      ghost var before := rows;
      var row := Enrollment(id, groupId, userId, Abs(courseId), Abs(version), enroller, clock, Pending, None);
      AppendWellFormed(t0, row);
      rows := rows + [row];
      nextId, clock := nextId + 1, clock + 1;
      assert Table() == EnrollmentTable(t0.rows + [row], t0.nextId + 1, t0.clock + 1);
      SetStatus(id, Active);
      assert forall i :: 0 <= i < |before| ==> rows[i] == before[i];
      assert rows[|before|] == row.(status := Active);
      assert rows == before + [row.(status := Active)];
      r := Some(id);
      assert (Table(), r) == Enroll(t0, groupId, userId, courseId, version, enrolledBy, currentUser);
    }

    /** `unenroll_user`: cancel every row of the tuple; reports success even when none matched. */
    method UnenrollUser(groupId: nat, userId: nat, courseId: int, version: int) returns (ok: bool)
      requires Valid()
      modifies this
      ensures Valid() && ok
      ensures rows == TupleCancelled(old(rows), groupId, userId, courseId, version)
      ensures nextId == old(nextId) && clock == old(clock)
    {
      var updated := rows;
      var i := 0;
      while i < |updated|
        invariant 0 <= i <= |updated| && |updated| == |rows|
        invariant forall k :: 0 <= k < |updated| ==>
                    updated[k] == if k < i then TupleCancelled(rows, groupId, userId, courseId, version)[k] else rows[k]
      {
        if SameTuple(updated[i], groupId, userId, Abs(courseId), Abs(version)) {
          updated := updated[i := updated[i].(status := Cancelled)];
        }
        i := i + 1;
      }
      assert updated == TupleCancelled(rows, groupId, userId, courseId, version);
      SameKeysWellFormed(Table(), updated);
      rows := updated;
      ok := true;
    }
  }
}
