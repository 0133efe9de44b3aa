/** The invoice ledger (`BHFE_Groups_Invoice`): the running total of a group's
    pending enrollments, frozen into invoice rows, and the linking of billed
    enrollments to the order that paid for them. */
module Invoices {
  import opened Php
  import opened Platform
  import opened Enrollments

  /** Stored as 'pending' and 'paid'. */
  datatype InvoiceStatus = Unpaid | Paid

  /** A row of the invoices table; `invoiceDate` and `paidDate` are ledger clock values. */
  datatype Invoice = Invoice(
    id: nat, groupId: nat, orderId: Option<nat>, totalAmount: nat,
    status: InvoiceStatus, invoiceDate: nat, paidDate: Option<nat>)

  datatype InvoiceTable = InvoiceTable(invoices: seq<Invoice>, nextId: nat, clock: nat)

  /** Ids and invoice dates increase along the table; every date lies before the clock. */
  ghost predicate WellFormedInvoices(t: InvoiceTable) {
    t.nextId > 0 &&
    (forall i :: 0 <= i < |t.invoices| ==>
       0 < t.invoices[i].id < t.nextId && t.invoices[i].invoiceDate < t.clock &&
       (t.invoices[i].paidDate.Some? ==> t.invoices[i].paidDate.value < t.clock)) &&
    (forall i, j :: 0 <= i < j < |t.invoices| ==>
       t.invoices[i].id < t.invoices[j].id && t.invoices[i].invoiceDate < t.invoices[j].invoiceDate)
  }

  // ---------------------------------------------------------------------------
  // Totals

  /** The sum of the current course prices of the given enrollments. */
  function SumPrices(cat: Catalog, es: seq<Enrollment>): nat {
    if es == [] then 0 else SumPrices(cat, es[..|es| - 1]) + CoursePrice(cat, es[|es| - 1].courseId)
  }

  /** What `calculate_running_total` computes: the group's pending enrollments at
      their courses' current prices. */
  function RunningTotal(cat: Catalog, rows: seq<Enrollment>, groupId: int): nat {
    SumPrices(cat, PendingEnrollments(rows, groupId))
  }

  /** The total is at least the price of each enrollment it covers, and it is zero
      when nothing is pending. */
  lemma {:induction false} SumPricesCovers(cat: Catalog, es: seq<Enrollment>)
    ensures forall e :: e in es ==> CoursePrice(cat, e.courseId) <= SumPrices(cat, es)
    ensures es == [] ==> SumPrices(cat, es) == 0
  {
    if es != [] {
      SumPricesCovers(cat, es[..|es| - 1]);
      forall e | e in es
        ensures CoursePrice(cat, e.courseId) <= SumPrices(cat, es)
      {
        if e != es[|es| - 1] {
          var k :| 0 <= k < |es| && es[k] == e;
          assert e in es[..|es| - 1] by { assert es[..|es| - 1][k] == e; }
        }
      }
    }
  }

  /** The ids of the given enrollments, in order. */
  function IdsOf(es: seq<Enrollment>): (ids: seq<int>)
    ensures |ids| == |es| && forall k :: 0 <= k < |es| ==> ids[k] == es[k].id
  {
    seq(|es|, k requires 0 <= k < |es| => es[k].id as int)
  }

  // ---------------------------------------------------------------------------
  // Transitions

  /** The rows after `link_enrollments_to_order`: the listed rows carry the order. */
  function LinkedById(rows: seq<Enrollment>, ids: seq<int>, orderId: nat): seq<Enrollment> {
    seq(|rows|, i requires 0 <= i < |rows| =>
      if rows[i].id as int in ids then rows[i].(orderId := Some(orderId)) else rows[i])
  }

  /** `create_invoice`: the enrollment table and invoice table afterwards and the
      result (the invoice id, or None for `false`). */
  function InvoiceCreated(et: EnrollmentTable, it: InvoiceTable, cat: Catalog, groupId: int, orderId: nat)
    : (EnrollmentTable, InvoiceTable, Option<nat>)
  {
    var pending := PendingEnrollments(et.rows, groupId);
    if pending == [] then (et, it, None)
    else
      var paid := orderId > 0;
      var invoice := Invoice(it.nextId, Abs(groupId), if paid then Some(orderId) else None,
                             RunningTotal(cat, et.rows, groupId), if paid then Paid else Unpaid,
                             it.clock, if paid then Some(it.clock) else None);
      var linked := if paid then et.(rows := LinkedById(et.rows, IdsOf(pending), orderId)) else et;
      (linked, InvoiceTable(it.invoices + [invoice], it.nextId + 1, it.clock + 1), Some(it.nextId))
  }

  /** `create_invoice` without pending enrollments returns false and changes nothing.
      Otherwise it appends one invoice under a fresh id: for the group's `absint`, with
      the running total of the state before the call, paid with a paid date exactly
      when an order is given, and recording that order. Both tables stay well formed. */
  lemma CreateInvoiceOutcome(et: EnrollmentTable, it: InvoiceTable, cat: Catalog, groupId: int, orderId: nat)
    requires WellFormed(et) && WellFormedInvoices(it)
    ensures var (et2, it2, r) := InvoiceCreated(et, it, cat, groupId, orderId);
            WellFormed(et2) && WellFormedInvoices(it2) &&
            (PendingEnrollments(et.rows, groupId) == [] ==> et2 == et && it2 == it && r.None?) &&
            (PendingEnrollments(et.rows, groupId) != [] ==>
               && r.Some? && |it2.invoices| == |it.invoices| + 1 && it2.invoices[..|it.invoices|] == it.invoices
               && (forall i :: 0 <= i < |it.invoices| ==> it.invoices[i].id != r.value)
               && var inv := it2.invoices[|it.invoices|];
                  inv.id == r.value && inv.groupId == Abs(groupId) &&
                  inv.totalAmount == RunningTotal(cat, et.rows, groupId) &&
                  (inv.status == Paid <==> orderId > 0) && (inv.paidDate.Some? <==> orderId > 0) &&
                  inv.orderId == (if orderId > 0 then Some(orderId) else None))
  {
    var (et2, it2, r) := InvoiceCreated(et, it, cat, groupId, orderId);
    InvoiceCreatedWellFormed(et, it, cat, groupId, orderId);
    if PendingEnrollments(et.rows, groupId) != [] {
      assert it2.invoices[..|it.invoices|] == it.invoices;
    }
  }

  /** `create_invoice` keeps both tables well formed. */
  lemma InvoiceCreatedWellFormed(et: EnrollmentTable, it: InvoiceTable, cat: Catalog, groupId: int, orderId: nat)
    requires WellFormed(et) && WellFormedInvoices(it)
    ensures WellFormed(InvoiceCreated(et, it, cat, groupId, orderId).0)
    ensures WellFormedInvoices(InvoiceCreated(et, it, cat, groupId, orderId).1)
  {
    var et2 := InvoiceCreated(et, it, cat, groupId, orderId).0;
    if PendingEnrollments(et.rows, groupId) != [] && orderId > 0 {
      SameKeysWellFormed(et, et2.rows);
    }
  }

  /** With an order, every enrollment that was pending now carries that order, no
      other row changes, and the group has nothing left pending: its running total
      drops to 0. */
  lemma CreateInvoiceSettlesGroup(et: EnrollmentTable, it: InvoiceTable, cat: Catalog, groupId: int, orderId: nat)
    requires WellFormed(et) && orderId > 0
    ensures var (et2, _, _) := InvoiceCreated(et, it, cat, groupId, orderId);
            |et2.rows| == |et.rows| &&
            (forall i :: 0 <= i < |et.rows| ==>
               if IsPendingFor(et.rows[i], groupId) then et2.rows[i] == et.rows[i].(orderId := Some(orderId))
               else et2.rows[i] == et.rows[i]) &&
            PendingEnrollments(et2.rows, groupId) == [] &&
            RunningTotal(cat, et2.rows, groupId) == 0
  {
    var pending := PendingEnrollments(et.rows, groupId);
    var (et2, _, _) := InvoiceCreated(et, it, cat, groupId, orderId);
    if pending != [] {
      var ids := IdsOf(pending);
      forall i | 0 <= i < |et.rows|
        ensures if IsPendingFor(et.rows[i], groupId) then et2.rows[i] == et.rows[i].(orderId := Some(orderId))
                else et2.rows[i] == et.rows[i]
      {
        if IsPendingFor(et.rows[i], groupId) {
          assert et.rows[i] in pending;
          var k :| 0 <= k < |pending| && pending[k] == et.rows[i];
          assert ids[k] == et.rows[i].id;
        } else {
          ListedOnlyIfPending(et, groupId, i);
        }
      }
      assert forall i :: 0 <= i < |et2.rows| ==> !IsPendingFor(et2.rows[i], groupId);
      NothingPending(et2.rows, groupId);
    }
  }

  /** Ids are unique, so a row whose id is among the pending ids is itself pending. */
  lemma ListedOnlyIfPending(et: EnrollmentTable, groupId: int, i: nat)
    requires WellFormed(et) && i < |et.rows|
    ensures et.rows[i].id as int in IdsOf(PendingEnrollments(et.rows, groupId)) ==> IsPendingFor(et.rows[i], groupId)
  {
    var pending := PendingEnrollments(et.rows, groupId);
    var ids := IdsOf(pending);
    if et.rows[i].id as int in ids {
      var k :| 0 <= k < |ids| && ids[k] == et.rows[i].id as int;
      assert pending[k] in et.rows;
      var j :| 0 <= j < |et.rows| && et.rows[j] == pending[k];
      assert i == j;
    }
  }

  /** A table in which no row is pending for the group has no pending enrollments. */
  lemma {:induction false} NothingPending(rows: seq<Enrollment>, groupId: int)
    requires forall i :: 0 <= i < |rows| ==> !IsPendingFor(rows[i], groupId)
    ensures PendingEnrollments(rows, groupId) == []
  {
    if rows != [] {
      assert forall i :: 0 <= i < |rows[1..]| ==> rows[1..][i] == rows[i + 1];
      NothingPending(rows[1..], groupId);
    }
  }

  /** Without an order no enrollment changes, so calling `create_invoice` again
      bills the same enrollments a second time: another invoice with the same total. */
  lemma InvoiceWithoutOrderRepeats(et: EnrollmentTable, it: InvoiceTable, cat: Catalog, groupId: int)
    requires PendingEnrollments(et.rows, groupId) != []
    ensures var (et1, it1, r1) := InvoiceCreated(et, it, cat, groupId, 0);
            var (et2, it2, r2) := InvoiceCreated(et1, it1, cat, groupId, 0);
            et1 == et && et2 == et && r1.Some? && r2.Some? && r1 != r2 &&
            |it2.invoices| == |it.invoices| + 2 &&
            it2.invoices[|it.invoices|].totalAmount == it2.invoices[|it.invoices| + 1].totalAmount ==
              RunningTotal(cat, et.rows, groupId) &&
            it2.invoices[|it.invoices|].status == it2.invoices[|it.invoices| + 1].status == Unpaid
  {
  }

  // ---------------------------------------------------------------------------
  // Queries

  predicate InvoicesAscending(s: seq<Invoice>) {
    forall i, j :: 0 <= i < j < |s| ==> s[i].invoiceDate < s[j].invoiceDate
  }

  predicate InvoicesDescending(s: seq<Invoice>) {
    forall i, j :: 0 <= i < j < |s| ==> s[i].invoiceDate > s[j].invoiceDate
  }

  /** Invoices drawn from the tail of an ascending table come after its first one. */
  lemma InvoiceFollowsFirst(s: seq<Invoice>, rest: seq<Invoice>)
    requires s != [] && forall v :: v in rest ==> v in s[1..]
    requires InvoicesAscending(s[1..]) ==> InvoicesAscending(rest)
    ensures InvoicesAscending(s) ==> InvoicesAscending([s[0]] + rest)
  {
    if InvoicesAscending(s) {
      assert InvoicesAscending(s[1..]) by {
        forall i, j | 0 <= i < j < |s[1..]|
          ensures s[1..][i].invoiceDate < s[1..][j].invoiceDate
        {
          assert s[1..][i] == s[i + 1] && s[1..][j] == s[j + 1];
        }
      }
      forall v | v in rest
        ensures s[0].invoiceDate < v.invoiceDate
      {
        var k :| 0 <= k < |s[1..]| && s[1..][k] == v;
        assert s[k + 1] == v;
      }
      var r := [s[0]] + rest;
      forall i, j | 0 <= i < j < |r|
        ensures r[i].invoiceDate < r[j].invoiceDate
      {
        assert r[j] == rest[j - 1] && r[j] in rest;
        if i > 0 { assert r[i] == rest[i - 1]; }
      }
    }
  }

  /** The group's invoices in table order. */
  function InvoicesOf(s: seq<Invoice>, groupId: int): (r: seq<Invoice>)
    ensures forall v :: v in r <==> v in s && v.groupId == groupId
    ensures InvoicesAscending(s) ==> InvoicesAscending(r)
  {
    if s == [] then []
    else if s[0].groupId == groupId then
      var rest := InvoicesOf(s[1..], groupId);
      InvoiceFollowsFirst(s, rest);
      [s[0]] + rest
    else InvoicesOf(s[1..], groupId)
  }

  // ---------------------------------------------------------------------------
  // The table

  class InvoiceLedger {
    var invoices: seq<Invoice>
    var nextId: nat
    var clock: nat

    function Table(): InvoiceTable
      reads this
    {
      InvoiceTable(invoices, nextId, clock)
    }

    ghost predicate Valid()
      reads this
    {
      WellFormedInvoices(Table())
    }

    constructor ()
      ensures Valid() && invoices == [] && nextId == 1 && clock == 0
    {
      invoices, nextId, clock := [], 1, 0;
    }

    /** `calculate_running_total`. */
    method CalculateRunningTotal(ledger: EnrollmentLedger, cat: Catalog, groupId: int) returns (total: nat)
      ensures total == RunningTotal(cat, ledger.rows, groupId)
    {
      var pending := PendingEnrollments(ledger.rows, groupId);
      total := 0;
      var i := 0;
      while i < |pending|
        invariant 0 <= i <= |pending|
        invariant total == SumPrices(cat, pending[..i])
      {
        assert pending[..i + 1][..i] == pending[..i];
        total := total + CoursePrice(cat, pending[i].courseId);
        i := i + 1;
      }
      assert pending[..i] == pending;
    }

    /** `link_enrollments_to_order`: `UPDATE … SET order_id WHERE id IN (ids)`. */
    method LinkEnrollmentsToOrder(ledger: EnrollmentLedger, ids: seq<int>, orderId: nat)
      requires ledger.Valid()
      modifies ledger
      ensures ledger.Valid()
      ensures ledger.rows == LinkedById(old(ledger.rows), ids, orderId)
      ensures ledger.nextId == old(ledger.nextId) && ledger.clock == old(ledger.clock)
    {
      var rows := ledger.rows;
      var updated := rows;
      var i := 0;
      while i < |updated|
        invariant 0 <= i <= |updated| && |updated| == |rows|
        invariant forall k :: 0 <= k < |updated| ==>
                    updated[k] == if k < i then LinkedById(rows, ids, orderId)[k] else rows[k]
      {
        if updated[i].id as int in ids {
          updated := updated[i := updated[i].(orderId := Some(orderId))];
        }
        i := i + 1;
      }
      assert updated == LinkedById(rows, ids, orderId);
      SameKeysWellFormed(ledger.Table(), updated);
      ledger.rows := updated;
    }

    /** `create_invoice`: total and collect the pending enrollments, insert the invoice,
        and with an order link those enrollments to it. */
    method CreateInvoice(ledger: EnrollmentLedger, cat: Catalog, groupId: int, orderId: nat) returns (r: Option<nat>)
      requires Valid() && ledger.Valid()
      modifies this, ledger
      ensures Valid() && ledger.Valid()
      ensures (ledger.Table(), Table(), r) == InvoiceCreated(old(ledger.Table()), old(Table()), cat, groupId, orderId)
    {
      ghost var expected := InvoiceCreated(ledger.Table(), Table(), cat, groupId, orderId);
      InvoiceCreatedWellFormed(ledger.Table(), Table(), cat, groupId, orderId);
      var pending := PendingEnrollments(ledger.rows, groupId);
      if pending == [] {
        return None;
      }
      var total, ids := TotalAndIds(cat, pending);
      var paid := orderId > 0;
      var id := nextId;
      invoices := invoices + [Invoice(id, Abs(groupId), if paid then Some(orderId) else None, total,
                                      if paid then Paid else Unpaid, clock, if paid then Some(clock) else None)];
      nextId, clock := nextId + 1, clock + 1;
      assert Table() == expected.1;
      if paid {
        LinkEnrollmentsToOrder(ledger, ids, orderId);
      }
      assert ledger.Table() == expected.0;
      r := Some(id);
    }

    /** The loop of `create_invoice` over the pending enrollments: their total and ids. */
    static method TotalAndIds(cat: Catalog, pending: seq<Enrollment>) returns (total: nat, ids: seq<int>)
      ensures total == SumPrices(cat, pending) && ids == IdsOf(pending)
    {
      total, ids := 0, [];
      var i := 0;
      while i < |pending|
        invariant 0 <= i <= |pending|
        invariant total == SumPrices(cat, pending[..i]) && ids == IdsOf(pending[..i])
      {
        assert pending[..i + 1][..i] == pending[..i];
        total := total + CoursePrice(cat, pending[i].courseId);
        ids := ids + [pending[i].id as int];
        i := i + 1;
      }
      assert pending[..i] == pending;
    }

    /** `get_group_invoices`: the group's invoices, newest first. */
    function GroupInvoices(groupId: int): (r: seq<Invoice>)
      reads this
      requires Valid()
      ensures forall v :: v in r <==> v in invoices && v.groupId == groupId
      ensures InvoicesDescending(r)
    {
      var found := InvoicesOf(invoices, groupId);
      var r := Reversed(found);
      assert forall v :: v in r <==> v in found by {
        forall v ensures v in r <==> v in found {
          if v in found {
            var k :| 0 <= k < |found| && found[k] == v;
            assert r[|found| - 1 - k] == v;
          }
        }
      }
      r
    }

    /** `get_invoice`: the invoice with the given id, if any. */
    function InvoiceById(invoiceId: int): (r: Option<Invoice>)
      reads this
      ensures r.Some? ==> r.value in invoices && r.value.id == invoiceId
      ensures r.None? ==> forall i :: 0 <= i < |invoices| ==> invoices[i].id != invoiceId
    {
      FindInvoice(invoices, invoiceId)
    }

    /** `mark_invoice_paid`: the invoice with the given id becomes paid now, taking the
        order when one is given; every other invoice is untouched. The result is the
        number of rows updated: the paid date is always new, so a matching row always
        changes. */
    method MarkInvoicePaid(invoiceId: int, orderId: nat) returns (affected: nat)
      requires Valid()
      modifies this
      ensures Valid() && nextId == old(nextId) && clock == old(clock) + 1 && |invoices| == |old(invoices)|
      ensures forall i :: 0 <= i < |invoices| ==>
                invoices[i] == if old(invoices)[i].id == Abs(invoiceId)
                               then old(invoices)[i].(status := Paid, paidDate := Some(old(clock)),
                                                      orderId := if orderId > 0 then Some(orderId) else old(invoices)[i].orderId)
                               else old(invoices)[i]
      ensures affected == if exists i :: 0 <= i < |invoices| && invoices[i].id == Abs(invoiceId) then 1 else 0
    {
      var updated;
      updated, affected := MarkRowsPaid(invoices, Abs(invoiceId), orderId, clock);
      MarkedPaidWellFormed(Table(), Abs(invoiceId), orderId);
      invoices := updated;
      clock := clock + 1;
    }
  }

  /** The invoices after `mark_invoice_paid` at time `now`. */
  function MarkedPaid(invoices: seq<Invoice>, invoiceId: nat, orderId: nat, now: nat): (r: seq<Invoice>)
    ensures |r| == |invoices|
  {
    seq(|invoices|, k requires 0 <= k < |invoices| =>
      if invoices[k].id == invoiceId
      then invoices[k].(status := Paid, paidDate := Some(now), orderId := if orderId > 0 then Some(orderId) else invoices[k].orderId)
      else invoices[k])
  }

  /** The `UPDATE … WHERE id = …` of `mark_invoice_paid`, counting the rows it changed. */
  method MarkRowsPaid(invoices: seq<Invoice>, invoiceId: nat, orderId: nat, now: nat) returns (updated: seq<Invoice>, affected: nat)
    ensures updated == MarkedPaid(invoices, invoiceId, orderId, now)
    ensures affected == if exists k :: 0 <= k < |invoices| && invoices[k].id == invoiceId then 1 else 0
  {
    updated := invoices;
    affected := 0;
    var i := 0;
    while i < |updated|
      invariant 0 <= i <= |updated| && |updated| == |invoices|
      invariant forall k :: 0 <= k < |updated| ==>
                  updated[k] == if k < i then MarkedPaid(invoices, invoiceId, orderId, now)[k] else invoices[k]
      invariant affected == if exists k :: 0 <= k < i && invoices[k].id == invoiceId then 1 else 0
    {
      if updated[i].id == invoiceId {
        updated := updated[i := MarkedPaid(invoices, invoiceId, orderId, now)[i]];
        affected := 1;
      }
      i := i + 1;
    }
  }

  /** Marking an invoice paid at the current time keeps the table well formed one tick later. */
  lemma MarkedPaidWellFormed(t: InvoiceTable, invoiceId: nat, orderId: nat)
    requires WellFormedInvoices(t)
    ensures WellFormedInvoices(InvoiceTable(MarkedPaid(t.invoices, invoiceId, orderId, t.clock), t.nextId, t.clock + 1))
  {
  }

  /** The first invoice with the given id. */
  function FindInvoice(s: seq<Invoice>, invoiceId: int): (r: Option<Invoice>)
    ensures r.Some? ==> r.value in s && r.value.id == invoiceId
    ensures r.None? ==> forall i :: 0 <= i < |s| ==> s[i].id != invoiceId
  {
    if s == [] then None
    else if s[0].id == invoiceId then Some(s[0])
    else FindInvoice(s[1..], invoiceId)
  }
}
