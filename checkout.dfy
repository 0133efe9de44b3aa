/** Checkout reconciliation (`BHFE_Groups_WooCommerce`): resolving shop products to
    courses and back, the payment bypass for group members, and what a completed
    order does to the enrollment and invoice ledgers. */
module Checkout {
  import opened Php
  import opened Platform
  import opened Registry
  import opened Enrollments
  import opened Invoices

  // ---------------------------------------------------------------------------
  // Products and courses

  /** `get_course_id_from_product`: the course a product sells, tried in a fixed order:
      the product's own link meta, the course part of the first variable-course entry,
      the same for the first simple-course entry, then the first course whose link meta
      names the product. */
  function CourseIdFromProduct(cat: Catalog, productId: nat): (r: Option<string>)
    ensures Truthy(PostMeta(cat.linkedIdMeta, productId)) ==> r == Some(PostMeta(cat.linkedIdMeta, productId))
    ensures !Truthy(PostMeta(cat.linkedIdMeta, productId)) && PostMetaList(cat.variableCourseIds, productId) != [] ==>
              r == Some(BeforeColon(PostMetaList(cat.variableCourseIds, productId)[0]))
    ensures !Truthy(PostMeta(cat.linkedIdMeta, productId)) && PostMetaList(cat.variableCourseIds, productId) == [] &&
            PostMetaList(cat.simpleCourseIds, productId) != [] ==>
              r == Some(BeforeColon(PostMetaList(cat.simpleCourseIds, productId)[0]))
    ensures !Truthy(PostMeta(cat.linkedIdMeta, productId)) && PostMetaList(cat.variableCourseIds, productId) == [] &&
            PostMetaList(cat.simpleCourseIds, productId) == [] && r.Some? ==>
              exists k :: 0 <= k < |cat.coursePosts| && r == Some(NatToString(cat.coursePosts[k])) &&
                          PostMeta(cat.linkedIdMeta, cat.coursePosts[k]) == NatToString(productId) &&
                          forall j :: 0 <= j < k ==> PostMeta(cat.linkedIdMeta, cat.coursePosts[j]) != NatToString(productId)
    ensures r.None? <==>
              !Truthy(PostMeta(cat.linkedIdMeta, productId)) && PostMetaList(cat.variableCourseIds, productId) == [] &&
              PostMetaList(cat.simpleCourseIds, productId) == [] &&
              forall k :: 0 <= k < |cat.coursePosts| ==> PostMeta(cat.linkedIdMeta, cat.coursePosts[k]) != NatToString(productId)
  {
    var direct := PostMeta(cat.linkedIdMeta, productId);
    var variable := PostMetaList(cat.variableCourseIds, productId);
    var simple := PostMetaList(cat.simpleCourseIds, productId);
    if Truthy(direct) then Some(direct)
    else if variable != [] then Some(BeforeColon(variable[0]))
    else if simple != [] then Some(BeforeColon(simple[0]))
    else match FirstLinkedTo(cat.coursePosts, cat.linkedIdMeta, NatToString(productId))
      case Some(course) => Some(NatToString(course))
      case None => None
  }

  /** `get_product_id_from_course`: the course's own link meta, else the first product
      whose link meta names the course, else the first variation whose serialized
      course list contains the course id as text (a LIKE query). */
  function ProductIdFromCourse(cat: Catalog, courseId: nat): (r: Option<string>)
    ensures Truthy(PostMeta(cat.linkedIdMeta, courseId)) ==> r == Some(PostMeta(cat.linkedIdMeta, courseId))
    ensures !Truthy(PostMeta(cat.linkedIdMeta, courseId)) &&
            (exists k :: 0 <= k < |cat.productPosts| && PostMeta(cat.linkedIdMeta, cat.productPosts[k]) == NatToString(courseId)) ==>
              exists k :: 0 <= k < |cat.productPosts| && r == Some(NatToString(cat.productPosts[k])) &&
                          PostMeta(cat.linkedIdMeta, cat.productPosts[k]) == NatToString(courseId) &&
                          forall j :: 0 <= j < k ==> PostMeta(cat.linkedIdMeta, cat.productPosts[j]) != NatToString(courseId)
    ensures !Truthy(PostMeta(cat.linkedIdMeta, courseId)) &&
            (forall k :: 0 <= k < |cat.productPosts| ==> PostMeta(cat.linkedIdMeta, cat.productPosts[k]) != NatToString(courseId)) &&
            r.Some? ==>
              exists k :: 0 <= k < |cat.variationPosts| && r == Some(NatToString(cat.variationPosts[k])) &&
                          Listed(cat.variableCourseIds, cat.variationPosts[k], NatToString(courseId)) &&
                          forall j :: 0 <= j < k ==> !Listed(cat.variableCourseIds, cat.variationPosts[j], NatToString(courseId))
    ensures r.None? <==>
              !Truthy(PostMeta(cat.linkedIdMeta, courseId)) &&
              (forall k :: 0 <= k < |cat.productPosts| ==> PostMeta(cat.linkedIdMeta, cat.productPosts[k]) != NatToString(courseId)) &&
              (forall k :: 0 <= k < |cat.variationPosts| ==> !Listed(cat.variableCourseIds, cat.variationPosts[k], NatToString(courseId)))
  {
    var direct := PostMeta(cat.linkedIdMeta, courseId);
    if Truthy(direct) then Some(direct)
    else match FirstLinkedTo(cat.productPosts, cat.linkedIdMeta, NatToString(courseId))
      case Some(product) => Some(NatToString(product))
      case None =>
        match FirstListing(cat.variationPosts, cat.variableCourseIds, NatToString(courseId))
        case Some(variation) => Some(NatToString(variation))
        case None => None
  }

  /** The decimal text of an id is truthy exactly when the id is not 0. */
  lemma TruthyId(n: nat)
    ensures Truthy(NatToString(n)) <==> n > 0
  {
    if n >= 10 {
      assert |NatToString(n)| >= 2 by { assert NatToString(n) == NatToString(n / 10) + [DigitChar(n % 10)]; }
    }
  }

  /** A course linked to a product, and named by no other course, resolves to that
      product, and the product (with no course data of its own) resolves back to the
      course; both ids read back as the numbers they are. */
  lemma CourseProductRoundTrip(cat: Catalog, courseId: nat, productId: nat)
    requires productId > 0 && PostMeta(cat.linkedIdMeta, courseId) == NatToString(productId)
    requires !Truthy(PostMeta(cat.linkedIdMeta, productId))
    requires PostMetaList(cat.variableCourseIds, productId) == [] && PostMetaList(cat.simpleCourseIds, productId) == []
    requires courseId in cat.coursePosts
    requires forall k :: 0 <= k < |cat.coursePosts| && cat.coursePosts[k] != courseId ==>
               PostMeta(cat.linkedIdMeta, cat.coursePosts[k]) != NatToString(productId)
    ensures ProductIdFromCourse(cat, courseId) == Some(NatToString(productId))
    ensures CourseIdFromProduct(cat, productId) == Some(NatToString(courseId))
    ensures IntVal(ProductIdFromCourse(cat, courseId).value) == productId
    ensures IntVal(CourseIdFromProduct(cat, productId).value) == courseId
  {
    TruthyId(productId);
    IntValOfNatToString(productId);
    IntValOfNatToString(courseId);
    var found := FirstLinkedTo(cat.coursePosts, cat.linkedIdMeta, NatToString(productId));
    var j :| 0 <= j < |cat.coursePosts| && cat.coursePosts[j] == courseId;
    assert found.Some?;
  }

  // ---------------------------------------------------------------------------
  // Course versions

  /** An entry of a product's course list names the course, and has a version part. */
  predicate NamesCourse(entry: string, courseId: string) {
    LooseEquals(BeforeColon(entry), courseId) && AfterColon(entry).Some?
  }

  /** The version the member checkout enrolls at: the version part of the first entry
      naming the course, 1 when there is none. */
  function VersionFrom(entries: seq<string>, courseId: string): (v: int)
    ensures (forall k :: 0 <= k < |entries| ==> !NamesCourse(entries[k], courseId)) ==> v == 1
    ensures (exists k :: 0 <= k < |entries| && NamesCourse(entries[k], courseId)) ==>
              exists k :: 0 <= k < |entries| && NamesCourse(entries[k], courseId) &&
                          (forall j :: 0 <= j < k ==> !NamesCourse(entries[j], courseId)) &&
                          v == IntVal(SecondField(entries[k]).value)
  {
    if entries == [] then 1
    else if NamesCourse(entries[0], courseId) then IntVal(SecondField(entries[0]).value)
    else
      var v := VersionFrom(entries[1..], courseId);
      assert forall k :: 1 <= k < |entries| ==> entries[k] == entries[1..][k - 1];
      if exists k :: 0 <= k < |entries| && NamesCourse(entries[k], courseId) then
        var k :| 0 <= k < |entries| && NamesCourse(entries[k], courseId);
        assert NamesCourse(entries[1..][k - 1], courseId);
        var m :| 0 <= m < |entries[1..]| && NamesCourse(entries[1..][m], courseId) &&
                 (forall j :: 0 <= j < m ==> !NamesCourse(entries[1..][j], courseId)) &&
                 v == IntVal(SecondField(entries[1..][m]).value);
        assert forall j :: 0 <= j < m + 1 ==> !NamesCourse(entries[j], courseId) by {
          forall j | 0 <= j < m + 1 ensures !NamesCourse(entries[j], courseId) {
            if j > 0 { assert entries[j] == entries[1..][j - 1]; }
          }
        }
        assert entries[m + 1] == entries[1..][m];
        v
      else v
  }

  /** The version loop of `process_group_order`: scan the entries, stop at the first
      one naming the course. */
  method CourseVersion(entries: seq<string>, courseId: string) returns (version: int)
    ensures version == VersionFrom(entries, courseId)
  {
    version := 1;
    var i := 0;
    while i < |entries|
      invariant 0 <= i <= |entries|
      invariant VersionFrom(entries[i..], courseId) == VersionFrom(entries, courseId)
    {
      assert entries[i..][1..] == entries[i + 1..];
      if NamesCourse(entries[i], courseId) {
        version := IntVal(SecondField(entries[i]).value);
        break;
      }
      i := i + 1;
    }
    if i == |entries| {
      assert entries[i..] == [];
    }
  }

  /** A product listing "course:version" pairs yields the version paired with the
      course at its first pair for it; a product listing none defaults to version 1. */
  lemma VersionOfListedPair(entries: seq<string>, k: nat, courseId: nat, version: nat)
    requires k < |entries| && entries[k] == NatToString(courseId) + [':'] + NatToString(version)
    requires forall j :: 0 <= j < k ==> !NamesCourse(entries[j], NatToString(courseId))
    ensures VersionFrom(entries, NatToString(courseId)) == version
    ensures VersionFrom([], NatToString(courseId)) == 1
  {
    var c := NatToString(courseId);
    var s := NatToString(version);
    assert ':' !in c && ':' !in s by {
      assert forall i :: 0 <= i < |c| ==> IsDigit(c[i]);
      assert forall i :: 0 <= i < |s| ==> IsDigit(s[i]);
    }
    SecondFieldOfPair(c, s);
    ColonSplit(entries[k]);
    IntValOfNatToString(version);
    assert NamesCourse(entries[k], c);
    var v := VersionFrom(entries, c);
    var m :| 0 <= m < |entries| && NamesCourse(entries[m], c) &&
             (forall j :: 0 <= j < m ==> !NamesCourse(entries[j], c)) &&
             v == IntVal(SecondField(entries[m]).value);
    assert m == k;
  }

  // ---------------------------------------------------------------------------
  // Payment bypass

  /** A cart line; `variationId` is 0 for a simple product. */
  datatype CartItem = CartItem(productId: nat, variationId: nat)

  /** The id a course is looked up by: the variation when there is one. */
  function CheckedProduct(productId: nat, variationId: nat): nat {
    if variationId > 0 then variationId else productId
  }

  /** The product resolves to a course id PHP treats as true. */
  predicate ResolvesToCourse(cat: Catalog, productId: nat) {
    var course := CourseIdFromProduct(cat, productId);
    course.Some? && Truthy(course.value)
  }

  predicate AllCourses(cat: Catalog, cart: seq<CartItem>) {
    forall i :: 0 <= i < |cart| ==> ResolvesToCourse(cat, CheckedProduct(cart[i].productId, cart[i].variationId))
  }

  /** `maybe_bypass_payment`: a signed-in member of an active group whose cart holds
      only courses pays nothing; for anyone else the platform's answer stands. */
  method MaybeBypassPayment(db: GroupsDatabase, cat: Catalog, userId: nat, cart: Option<seq<CartItem>>, needsPayment: bool)
    returns (r: bool)
    requires db.Valid()
    ensures userId == 0 || cart.None? || db.GetUserGroups(userId) == [] ==> r == needsPayment
    ensures userId > 0 && cart.Some? && db.GetUserGroups(userId) != [] ==>
              (r <==> needsPayment && !AllCourses(cat, cart.value))
    ensures !r && needsPayment ==>
              userId > 0 && cart.Some? && AllCourses(cat, cart.value) &&
              exists g :: g in db.groups && g.status == Status.Active && HasActiveMembership(db.members, g.id, userId)
  {
    if userId == 0 || cart.None? {
      return needsPayment;
    }
    var userGroups := db.GetUserGroups(userId);
    if userGroups == [] {
      return needsPayment;
    }
    var allCourses := CartAllCourses(cat, cart.value);
    if allCourses {
      assert userGroups[0] in userGroups;
      return false;
    }
    return needsPayment;
  }

  /** The cart loop of `maybe_bypass_payment`: stop at the first line that is not a course. */
  method CartAllCourses(cat: Catalog, items: seq<CartItem>) returns (allCourses: bool)
    ensures allCourses <==> AllCourses(cat, items)
  {
    allCourses := true;
    var i := 0;
    while i < |items|
      invariant 0 <= i <= |items|
      invariant allCourses ==> forall k :: 0 <= k < i ==> ResolvesToCourse(cat, CheckedProduct(items[k].productId, items[k].variationId))
      invariant !allCourses ==> !AllCourses(cat, items)
    {
      var productId := if items[i].variationId > 0 then items[i].variationId else items[i].productId;
      var courseId := CourseIdFromProduct(cat, productId);
      if courseId.None? || !Truthy(courseId.value) {
        allCourses := false;
        break;
      }
      i := i + 1;
    }
  }

  // ---------------------------------------------------------------------------
  // Completed orders

  const GroupIdKey := "_bhfe_group_id"
  const GroupOrderKey := "_bhfe_group_order"
  const AdminCheckoutKey := "_bhfe_group_admin_checkout"

  /** An order line with the group meta the batch checkout stores on it ("" when unset). */
  datatype OrderItem = OrderItem(productId: nat, variationId: nat, enrollmentIdMeta: string, groupIdMeta: string)

  /** A WooCommerce order: fixed id, purchaser and lines, and its meta, which the
      checkout updates. */
  class Order {
    const id: nat
    const userId: nat
    const items: seq<OrderItem>
    var meta: map<string, string>

    constructor (id: nat, userId: nat, items: seq<OrderItem>)
      ensures this.id == id && this.userId == userId && this.items == items && meta == map[]
    {
      this.id, this.userId, this.items := id, userId, items;
      meta := map[];
    }
  }

  /** A line of the administrator's batch checkout: it names both an enrollment and a group. */
  predicate Tagged(item: OrderItem) {
    Truthy(item.enrollmentIdMeta) && Truthy(item.groupIdMeta)
  }

  /** The positions of the tagged lines, in line order. */
  function TaggedLines(items: seq<OrderItem>): (idx: seq<nat>)
    ensures forall j :: 0 <= j < |idx| ==> idx[j] < |items| && Tagged(items[idx[j]])
    ensures forall j, m :: 0 <= j < m < |idx| ==> idx[j] < idx[m]
    ensures forall k :: 0 <= k < |items| && Tagged(items[k]) ==> k in idx
  {
    if items == [] then []
    else
      var n := |items| - 1;
      var prefix := items[..n];
      assert forall k :: 0 <= k < n ==> prefix[k] == items[k];
      TaggedLines(prefix) + if Tagged(items[n]) then [n] else []
  }

  /** The enrollment ids of the tagged lines, in order, as `%d` reads them
      (`TaggedIdsInLineOrder` states the whole sequence). */
  function TaggedIds(items: seq<OrderItem>): (ids: seq<int>)
    ensures forall k :: 0 <= k < |items| && Tagged(items[k]) ==> IntVal(items[k].enrollmentIdMeta) in ids
    ensures (ids == []) <==> forall k :: 0 <= k < |items| ==> !Tagged(items[k])
  {
    if items == [] then []
    else
      var last := items[|items| - 1];
      var prefix := items[..|items| - 1];
      assert forall k :: 0 <= k < |prefix| ==> prefix[k] == items[k];
      TaggedIds(prefix) + if Tagged(last) then [IntVal(last.enrollmentIdMeta)] else []
  }

  /** The batch ids are exactly one id per tagged line, in line order, and none from
      any other line. */
  lemma {:induction false} TaggedIdsInLineOrder(items: seq<OrderItem>)
    ensures |TaggedIds(items)| == |TaggedLines(items)|
    ensures forall j :: 0 <= j < |TaggedIds(items)| ==>
              TaggedIds(items)[j] == IntVal(items[TaggedLines(items)[j]].enrollmentIdMeta)
  {
    if items != [] {
      var n := |items| - 1;
      var prefix := items[..n];
      TaggedIdsInLineOrder(prefix);
      assert forall k :: 0 <= k < n ==> prefix[k] == items[k];
    }
  }

  /** The group of the last tagged line, if any. */
  function LastTaggedGroup(items: seq<OrderItem>): (g: Option<string>)
    ensures g.None? <==> forall k :: 0 <= k < |items| ==> !Tagged(items[k])
    ensures g.Some? ==> exists k :: 0 <= k < |items| && Tagged(items[k]) && g.value == items[k].groupIdMeta &&
                                    forall j :: k < j < |items| ==> !Tagged(items[j])
  {
    if items == [] then None
    else
      var n := |items| - 1;
      if Tagged(items[n]) then Some(items[n].groupIdMeta)
      else
        var prefix := items[..n];
        var g := LastTaggedGroup(prefix);
        assert forall k :: 0 <= k < n ==> prefix[k] == items[k];
        if g.Some? then
          var k :| 0 <= k < n && Tagged(prefix[k]) && g.value == prefix[k].groupIdMeta &&
                   forall j :: k < j < n ==> !Tagged(prefix[j]);
          assert forall j :: k < j < |items| ==> !Tagged(items[j]);
          g
        else g
  }

  /** The course an order line resolves to, when PHP treats it as true. */
  function ItemCourse(cat: Catalog, item: OrderItem): Option<string> {
    var course := CourseIdFromProduct(cat, CheckedProduct(item.productId, item.variationId));
    if course.Some? && Truthy(course.value) then course else None
  }

  /** The course list the line's version is read from. */
  function ItemEntries(cat: Catalog, item: OrderItem): seq<string> {
    if item.variationId > 0 then PostMetaList(cat.variableCourseIds, item.variationId)
    else PostMetaList(cat.simpleCourseIds, item.productId)
  }

  /** The row belongs to the purchaser's enrollment in the course, any version or status. */
  predicate OfCourse(e: Enrollment, groupId: nat, userId: nat, courseId: nat) {
    e.groupId == groupId && e.userId == userId && e.courseId == courseId
  }

  /** The rows after `link_enrollment_to_order`. */
  function LinkedByCourse(rows: seq<Enrollment>, groupId: nat, userId: nat, courseId: nat, orderId: nat): seq<Enrollment> {
    seq(|rows|, i requires 0 <= i < |rows| =>
      if OfCourse(rows[i], groupId, userId, courseId) then rows[i].(orderId := Some(orderId)) else rows[i])
  }

  /** One line of the member checkout: enroll the purchaser in the line's course, then
      link every row of that course of theirs to the order. */
  function MemberStep(et: EnrollmentTable, cat: Catalog, groupId: nat, userId: nat, orderId: nat, item: OrderItem)
    : EnrollmentTable
  {
    match ItemCourse(cat, item)
    case None => et
    case Some(course) =>
      var courseId := IntVal(course);
      var (enrolled, _) := Enroll(et, groupId, userId, courseId, VersionFrom(ItemEntries(cat, item), course), userId, userId);
      enrolled.(rows := LinkedByCourse(enrolled.rows, groupId, userId, Abs(courseId), orderId))
  }

  /** The member checkout over all lines, in order. */
  function MemberItems(et: EnrollmentTable, cat: Catalog, groupId: nat, userId: nat, orderId: nat, items: seq<OrderItem>)
    : EnrollmentTable
  {
    if items == [] then et
    else MemberStep(MemberItems(et, cat, groupId, userId, orderId, items[..|items| - 1]), cat, groupId, userId, orderId,
                    items[|items| - 1])
  }

  /** The administrator's batch checkout: the tagged enrollments take the order, then
      `create_invoice` runs for the group. */
  function AdminSettled(et: EnrollmentTable, it: InvoiceTable, cat: Catalog, groupId: string, ids: seq<int>, orderId: nat)
    : (EnrollmentTable, InvoiceTable)
  {
    var linked := et.(rows := LinkedById(et.rows, ids, orderId));
    var (et2, it2, _) := InvoiceCreated(linked, it, cat, IntVal(groupId), orderId);
    (et2, it2)
  }

  /** The member checkout: enroll and link each line, then `create_invoice` runs for the group. */
  function MemberSettled(et: EnrollmentTable, it: InvoiceTable, cat: Catalog, groupId: nat, userId: nat, orderId: nat,
                         items: seq<OrderItem>): (EnrollmentTable, InvoiceTable)
  {
    var enrolled := MemberItems(et, cat, groupId, userId, orderId, items);
    var (et2, it2, _) := InvoiceCreated(enrolled, it, cat, groupId, orderId);
    (et2, it2)
  }

  /** `process_group_order`: the order meta, enrollment table and invoice table
      afterwards, given the purchaser's groups as `get_user_groups` lists them. */
  function ProcessOrder(userGroups: seq<Group>, cat: Catalog, et: EnrollmentTable, it: InvoiceTable,
                        meta: map<string, string>, orderId: nat, userId: nat, items: seq<OrderItem>)
    : (map<string, string>, EnrollmentTable, InvoiceTable)
  {
    if userId == 0 then (meta, et, it)
    else match LastTaggedGroup(items)
      case Some(groupId) =>
        var (et2, it2) := AdminSettled(et, it, cat, groupId, TaggedIds(items), orderId);
        (meta[GroupIdKey := groupId][GroupOrderKey := "yes"][AdminCheckoutKey := "yes"], et2, it2)
      case None =>
        if userGroups == [] then (meta, et, it)
        else
          var (et2, it2) := MemberSettled(et, it, cat, userGroups[0].id, userId, orderId, items);
          (meta[GroupIdKey := NatToString(userGroups[0].id)][GroupOrderKey := "yes"], et2, it2)
  }

  /** `link_enrollment_to_order`: the purchaser's rows of the course, whatever their
      version or status, take the order. */
  method LinkEnrollmentToOrder(ledger: EnrollmentLedger, groupId: nat, userId: nat, courseId: int, orderId: nat)
    requires ledger.Valid()
    modifies ledger
    ensures ledger.Valid()
    ensures ledger.Table() == old(ledger.Table()).(rows := LinkedByCourse(old(ledger.rows), groupId, userId, Abs(courseId), orderId))
  {
    var rows := ledger.rows;
    var updated := rows;
    var i := 0;
    while i < |updated|
      invariant 0 <= i <= |updated| && |updated| == |rows|
      invariant forall k :: 0 <= k < |updated| ==>
                  updated[k] == if k < i then LinkedByCourse(rows, groupId, userId, Abs(courseId), orderId)[k] else rows[k]
    {
      if OfCourse(updated[i], groupId, userId, Abs(courseId)) {
        updated := updated[i := updated[i].(orderId := Some(orderId))];
      }
      i := i + 1;
    }
    assert updated == LinkedByCourse(rows, groupId, userId, Abs(courseId), orderId);
    SameKeysWellFormed(ledger.Table(), updated);
    ledger.rows := updated;
  }

  /** Each member line keeps the table well formed. */
  lemma MemberStepWellFormed(et: EnrollmentTable, cat: Catalog, groupId: nat, userId: nat, orderId: nat, item: OrderItem)
    requires WellFormed(et)
    ensures WellFormed(MemberStep(et, cat, groupId, userId, orderId, item))
  {
    match ItemCourse(cat, item)
    case None =>
    case Some(course) =>
      var courseId := IntVal(course);
      EnrollOutcome(et, groupId, userId, courseId, VersionFrom(ItemEntries(cat, item), course), userId, userId);
      var (enrolled, _) := Enroll(et, groupId, userId, courseId, VersionFrom(ItemEntries(cat, item), course), userId, userId);
      SameKeysWellFormed(enrolled, LinkedByCourse(enrolled.rows, groupId, userId, Abs(courseId), orderId));
  }

  lemma {:induction false} MemberItemsWellFormed(et: EnrollmentTable, cat: Catalog, groupId: nat, userId: nat, orderId: nat,
                                                 items: seq<OrderItem>)
    requires WellFormed(et)
    ensures WellFormed(MemberItems(et, cat, groupId, userId, orderId, items))
  {
    if items != [] {
      MemberItemsWellFormed(et, cat, groupId, userId, orderId, items[..|items| - 1]);
      MemberStepWellFormed(MemberItems(et, cat, groupId, userId, orderId, items[..|items| - 1]), cat, groupId, userId,
                           orderId, items[|items| - 1]);
    }
  }

  /** The first loop of `process_group_order`: the group of the last tagged line and
      the enrollment ids of all tagged lines. */
  method ReadTaggedLines(items: seq<OrderItem>) returns (groupId: Option<string>, ids: seq<int>)
    ensures groupId == LastTaggedGroup(items) && ids == TaggedIds(items)
    ensures groupId.Some? <==> ids != []
  {
    groupId, ids := None, [];
    var i := 0;
    while i < |items|
      invariant 0 <= i <= |items|
      invariant groupId == LastTaggedGroup(items[..i]) && ids == TaggedIds(items[..i])
    {
      assert items[..i + 1][..i] == items[..i];
      if Truthy(items[i].enrollmentIdMeta) && Truthy(items[i].groupIdMeta) {
        groupId := Some(items[i].groupIdMeta);
        ids := ids + [IntVal(items[i].enrollmentIdMeta)];
      }
      i := i + 1;
    }
    assert items[..i] == items;
  }

  /** The second loop of `process_group_order`: enroll the purchaser in each line's
      course and link those enrollments to the order. */
  method EnrollOrderLines(ledger: EnrollmentLedger, cat: Catalog, groupId: nat, userId: nat, orderId: nat,
                          items: seq<OrderItem>)
    requires ledger.Valid()
    modifies ledger
    ensures ledger.Valid()
    ensures ledger.Table() == MemberItems(old(ledger.Table()), cat, groupId, userId, orderId, items)
  {
    ghost var start := ledger.Table();
    var i := 0;
    while i < |items|
      invariant 0 <= i <= |items|
      invariant ledger.Valid()
      invariant ledger.Table() == MemberItems(start, cat, groupId, userId, orderId, items[..i])
    {
      assert items[..i + 1][..i] == items[..i];
      var checkId := if items[i].variationId > 0 then items[i].variationId else items[i].productId;
      var courseId := CourseIdFromProduct(cat, checkId);
      if courseId.Some? && Truthy(courseId.value) {
        var entries := if items[i].variationId > 0 then PostMetaList(cat.variableCourseIds, items[i].variationId)
                       else PostMetaList(cat.simpleCourseIds, items[i].productId);
        var version := CourseVersion(entries, courseId.value);
        var enrolled := ledger.EnrollUser(groupId, userId, IntVal(courseId.value), version, userId, userId);
        LinkEnrollmentToOrder(ledger, groupId, userId, IntVal(courseId.value), orderId);
      }
      i := i + 1;
    }
    assert items[..i] == items;
  }

  /** The batch-checkout branch of `process_group_order`. */
  method SettleTaggedLines(ledger: EnrollmentLedger, invoices: InvoiceLedger, cat: Catalog, groupId: string, ids: seq<int>,
                           orderId: nat)
    requires ledger.Valid() && invoices.Valid()
    modifies ledger, invoices
    ensures ledger.Valid() && invoices.Valid()
    ensures (ledger.Table(), invoices.Table()) == AdminSettled(old(ledger.Table()), old(invoices.Table()), cat, groupId, ids, orderId)
  {
    invoices.LinkEnrollmentsToOrder(ledger, ids, orderId);
    var created := invoices.CreateInvoice(ledger, cat, IntVal(groupId), orderId);
  }

  /** The member branch of `process_group_order`, after the order meta is written. */
  method SettleMemberLines(ledger: EnrollmentLedger, invoices: InvoiceLedger, cat: Catalog, groupId: nat, userId: nat,
                           orderId: nat, items: seq<OrderItem>)
    requires ledger.Valid() && invoices.Valid()
    modifies ledger, invoices
    ensures ledger.Valid() && invoices.Valid()
    ensures (ledger.Table(), invoices.Table()) ==
            MemberSettled(old(ledger.Table()), old(invoices.Table()), cat, groupId, userId, orderId, items)
  {
    EnrollOrderLines(ledger, cat, groupId, userId, orderId, items);
    var created := invoices.CreateInvoice(ledger, cat, groupId, orderId);
  }

  /** `process_group_order`. */
  method ProcessGroupOrder(db: GroupsDatabase, ledger: EnrollmentLedger, invoices: InvoiceLedger, cat: Catalog, order: Order)
    requires db.Valid() && ledger.Valid() && invoices.Valid()
    modifies ledger, invoices, order
    ensures ledger.Valid() && invoices.Valid()
    ensures (order.meta, ledger.Table(), invoices.Table()) ==
            ProcessOrder(db.GetUserGroups(order.userId), cat, old(ledger.Table()), old(invoices.Table()), old(order.meta),
                         order.id, order.userId, order.items)
  {
    var userId := order.userId;
    if userId == 0 {
      return;
    }
    var groupId, ids := ReadTaggedLines(order.items);
    if groupId.Some? && ids != [] {
      order.meta := order.meta[GroupIdKey := groupId.value][GroupOrderKey := "yes"][AdminCheckoutKey := "yes"];
      SettleTaggedLines(ledger, invoices, cat, groupId.value, ids, order.id);
      return;
    }
    var userGroups := db.GetUserGroups(userId);
    if userGroups == [] {
      return;
    }
    var group := userGroups[0];
    order.meta := order.meta[GroupIdKey := NatToString(group.id)][GroupOrderKey := "yes"];
    SettleMemberLines(ledger, invoices, cat, group.id, userId, order.id, order.items);
  }

  // ---------------------------------------------------------------------------
  // What a completed order does

  /** Orders from guests, and orders of purchasers with no tagged line and no active
      group, leave the order and both tables as they were. */
  lemma UntouchedOrders(userGroups: seq<Group>, cat: Catalog, et: EnrollmentTable, it: InvoiceTable,
                        meta: map<string, string>, orderId: nat, userId: nat, items: seq<OrderItem>)
    requires userId == 0 || ((forall k :: 0 <= k < |items| ==> !Tagged(items[k])) && userGroups == [])
    ensures ProcessOrder(userGroups, cat, et, it, meta, orderId, userId, items) == (meta, et, it)
  {
  }

  /** The purchaser's enrollment in a course is settled by an order: they hold a live
      row for it, and every row they have for it carries the order. */
  predicate Settled(rows: seq<Enrollment>, groupId: nat, userId: nat, courseId: nat, orderId: nat) {
    (exists i :: 0 <= i < |rows| && OfCourse(rows[i], groupId, userId, courseId) && IsLive(rows[i])) &&
    (forall i :: 0 <= i < |rows| && OfCourse(rows[i], groupId, userId, courseId) ==> rows[i].orderId == Some(orderId))
  }

  /** A member line settles the purchaser's enrollment in its own course. */
  lemma StepSettles(et: EnrollmentTable, cat: Catalog, groupId: nat, userId: nat, orderId: nat, item: OrderItem)
    requires ItemCourse(cat, item).Some?
    ensures Settled(MemberStep(et, cat, groupId, userId, orderId, item).rows, groupId, userId,
                    Abs(IntVal(ItemCourse(cat, item).value)), orderId)
  {
    var course := ItemCourse(cat, item).value;
    var courseId := IntVal(course);
    var version := VersionFrom(ItemEntries(cat, item), course);
    var (enrolled, _) := Enroll(et, groupId, userId, courseId, version, userId, userId);
    var rows := LinkedByCourse(enrolled.rows, groupId, userId, Abs(courseId), orderId);
    var i: nat;
    if HasLive(et.rows, groupId, userId, courseId, version) {
      i :| 0 <= i < |et.rows| && SameTuple(et.rows[i], groupId, userId, courseId, version) && IsLive(et.rows[i]);
    } else {
      i := |et.rows|;
    }
    assert OfCourse(enrolled.rows[i], groupId, userId, Abs(courseId)) && IsLive(rows[i]);
  }

  /** A member line never unsettles an enrollment: it only appends rows and adds orders. */
  lemma StepKeepsSettled(et: EnrollmentTable, cat: Catalog, groupId: nat, userId: nat, orderId: nat, item: OrderItem,
                         courseId: nat)
    requires Settled(et.rows, groupId, userId, courseId, orderId)
    ensures Settled(MemberStep(et, cat, groupId, userId, orderId, item).rows, groupId, userId, courseId, orderId)
  {
    var i :| 0 <= i < |et.rows| && OfCourse(et.rows[i], groupId, userId, courseId) && IsLive(et.rows[i]);
    match ItemCourse(cat, item)
    case None =>
    case Some(course) =>
      var lineCourse := IntVal(course);
      var (enrolled, _) := Enroll(et, groupId, userId, lineCourse, VersionFrom(ItemEntries(cat, item), course), userId, userId);
      var rows := LinkedByCourse(enrolled.rows, groupId, userId, Abs(lineCourse), orderId);
      assert enrolled.rows[..|et.rows|] == et.rows;
      assert rows[i].status == et.rows[i].status && OfCourse(rows[i], groupId, userId, courseId);
      forall j | 0 <= j < |rows| && OfCourse(rows[j], groupId, userId, courseId)
        ensures rows[j].orderId == Some(orderId)
      {
        if j < |et.rows| { assert enrolled.rows[j] == et.rows[j]; }
      }
  }

  /** After the member lines, the purchaser's enrollment in every course a line
      resolves to is settled by the order. */
  lemma {:induction false} MemberItemsSettle(et: EnrollmentTable, cat: Catalog, groupId: nat, userId: nat, orderId: nat,
                                             items: seq<OrderItem>)
    ensures forall k :: 0 <= k < |items| && ItemCourse(cat, items[k]).Some? ==>
              Settled(MemberItems(et, cat, groupId, userId, orderId, items).rows, groupId, userId,
                      Abs(IntVal(ItemCourse(cat, items[k]).value)), orderId)
  {
    if items != [] {
      var n := |items| - 1;
      var prefix := items[..n];
      var before := MemberItems(et, cat, groupId, userId, orderId, prefix);
      MemberItemsSettle(et, cat, groupId, userId, orderId, prefix);
      forall k | 0 <= k < |items| && ItemCourse(cat, items[k]).Some?
        ensures Settled(MemberItems(et, cat, groupId, userId, orderId, items).rows, groupId, userId,
                        Abs(IntVal(ItemCourse(cat, items[k]).value)), orderId)
      {
        if k < n {
          assert prefix[k] == items[k];
          StepKeepsSettled(before, cat, groupId, userId, orderId, items[n], Abs(IntVal(ItemCourse(cat, items[k]).value)));
        } else {
          StepSettles(before, cat, groupId, userId, orderId, items[n]);
        }
      }
    }
  }

  /** `create_invoice` only links pending rows, which carry no order yet, so it keeps
      settled enrollments settled. */
  lemma InvoiceKeepsSettled(et: EnrollmentTable, it: InvoiceTable, cat: Catalog, invoiceGroup: int, orderId: nat,
                            groupId: nat, userId: nat, courseId: nat)
    requires WellFormed(et) && Settled(et.rows, groupId, userId, courseId, orderId)
    ensures Settled(InvoiceCreated(et, it, cat, invoiceGroup, orderId).0.rows, groupId, userId, courseId, orderId)
  {
    if orderId > 0 {
      CreateInvoiceSettlesGroup(et, it, cat, invoiceGroup, orderId);
      var rows := InvoiceCreated(et, it, cat, invoiceGroup, orderId).0.rows;
      var i :| 0 <= i < |et.rows| && OfCourse(et.rows[i], groupId, userId, courseId) && IsLive(et.rows[i]);
      assert rows[i] == et.rows[i];
      forall j | 0 <= j < |rows| && OfCourse(rows[j], groupId, userId, courseId)
        ensures rows[j].orderId == Some(orderId)
      {
        assert rows[j].groupId == et.rows[j].groupId && rows[j].userId == et.rows[j].userId;
      }
    }
  }

  /** The administrator's batch checkout links every tagged enrollment to the order
      (whatever its group or status), adds no enrollment, tags the order as an
      administrator's group order, and leaves the chosen group (the last tagged line's)
      with nothing pending. */
  lemma BatchCheckoutLinksTagged(userGroups: seq<Group>, cat: Catalog, et: EnrollmentTable, it: InvoiceTable,
                                 meta: map<string, string>, orderId: nat, userId: nat, items: seq<OrderItem>)
    requires WellFormed(et) && userId > 0 && LastTaggedGroup(items).Some?
    ensures var (meta2, et2, it2) := ProcessOrder(userGroups, cat, et, it, meta, orderId, userId, items);
            var groupId := LastTaggedGroup(items).value;
            meta2 == meta[GroupIdKey := groupId][GroupOrderKey := "yes"][AdminCheckoutKey := "yes"] &&
            |et2.rows| == |et.rows| &&
            (forall i :: 0 <= i < |et.rows| && et.rows[i].id as int in TaggedIds(items) ==> et2.rows[i].orderId == Some(orderId)) &&
            (forall i :: 0 <= i < |et.rows| && et.rows[i].id as int !in TaggedIds(items) && !IsPendingFor(et.rows[i], IntVal(groupId)) ==>
               et2.rows[i] == et.rows[i]) &&
            (orderId > 0 ==> PendingEnrollments(et2.rows, IntVal(groupId)) == [])
  {
    var groupId := LastTaggedGroup(items).value;
    var ids := TaggedIds(items);
    AdminSettledLinks(et, it, cat, groupId, ids, orderId);
    var settled := AdminSettled(et, it, cat, groupId, ids, orderId);
    assert ProcessOrder(userGroups, cat, et, it, meta, orderId, userId, items) ==
           (meta[GroupIdKey := groupId][GroupOrderKey := "yes"][AdminCheckoutKey := "yes"], settled.0, settled.1);
  }

  /** The table part of the batch checkout, for any list of ids. */
  lemma AdminSettledLinks(et: EnrollmentTable, it: InvoiceTable, cat: Catalog, groupId: string, ids: seq<int>, orderId: nat)
    requires WellFormed(et)
    ensures var et2 := AdminSettled(et, it, cat, groupId, ids, orderId).0;
            |et2.rows| == |et.rows| &&
            (forall i :: 0 <= i < |et.rows| && et.rows[i].id as int in ids ==> et2.rows[i].orderId == Some(orderId)) &&
            (forall i :: 0 <= i < |et.rows| && et.rows[i].id as int !in ids && !IsPendingFor(et.rows[i], IntVal(groupId)) ==>
               et2.rows[i] == et.rows[i]) &&
            (orderId > 0 ==> PendingEnrollments(et2.rows, IntVal(groupId)) == [])
  {
    var linked := et.(rows := LinkedById(et.rows, ids, orderId));
    SameKeysWellFormed(et, linked.rows);
    if orderId > 0 {
      CreateInvoiceSettlesGroup(linked, it, cat, IntVal(groupId), orderId);
    }
  }

  /** The member checkout enrolls the purchaser in the first of their groups (by name)
      for every line that resolves to a course; afterwards they hold a live row for each
      such course and every row of theirs for it, of any version or status, carries the
      order; the group is left with nothing pending. */
  lemma MemberCheckoutEnrollsAndLinks(userGroups: seq<Group>, cat: Catalog, et: EnrollmentTable, it: InvoiceTable,
                                      meta: map<string, string>, orderId: nat, userId: nat, items: seq<OrderItem>)
    requires WellFormed(et) && userId > 0 && LastTaggedGroup(items).None? && userGroups != []
    ensures var (meta2, et2, it2) := ProcessOrder(userGroups, cat, et, it, meta, orderId, userId, items);
            var groupId := userGroups[0].id;
            meta2 == meta[GroupIdKey := NatToString(groupId)][GroupOrderKey := "yes"] &&
            (forall k :: 0 <= k < |items| && ItemCourse(cat, items[k]).Some? ==>
               Settled(et2.rows, groupId, userId, Abs(IntVal(ItemCourse(cat, items[k]).value)), orderId)) &&
            (orderId > 0 ==> PendingEnrollments(et2.rows, groupId) == [])
  {
    MemberSettledLinks(et, it, cat, userGroups[0].id, userId, orderId, items);
  }

  /** The member lines followed by `create_invoice`: each resolved line's course is
      settled by the order, and a paid order leaves nothing pending in the group. */
  lemma MemberSettledLinks(et: EnrollmentTable, it: InvoiceTable, cat: Catalog, groupId: nat, userId: nat, orderId: nat,
                           items: seq<OrderItem>)
    requires WellFormed(et)
    ensures var rows := MemberSettled(et, it, cat, groupId, userId, orderId, items).0.rows;
            (forall k :: 0 <= k < |items| && ItemCourse(cat, items[k]).Some? ==>
               Settled(rows, groupId, userId, Abs(IntVal(ItemCourse(cat, items[k]).value)), orderId)) &&
            (orderId > 0 ==> PendingEnrollments(rows, groupId) == [])
  {
    var enrolled := MemberItems(et, cat, groupId, userId, orderId, items);
    MemberItemsWellFormed(et, cat, groupId, userId, orderId, items);
    MemberItemsSettle(et, cat, groupId, userId, orderId, items);
    forall k | 0 <= k < |items| && ItemCourse(cat, items[k]).Some?
      ensures Settled(InvoiceCreated(enrolled, it, cat, groupId, orderId).0.rows, groupId, userId,
                      Abs(IntVal(ItemCourse(cat, items[k]).value)), orderId)
    {
      InvoiceKeepsSettled(enrolled, it, cat, groupId, orderId, groupId, userId, Abs(IntVal(ItemCourse(cat, items[k]).value)));
    }
    if orderId > 0 {
      CreateInvoiceSettlesGroup(enrolled, it, cat, groupId, orderId);
    }
  }

  // ---------------------------------------------------------------------------
  // The batch checkout invoices nothing when it pays the whole balance

  /** As written, the batch checkout links the tagged enrollments before it calls
      `create_invoice`, so when the cart covers every pending enrollment of the group
      (what the group checkout puts in it) nothing is pending any more by then: no
      invoice is written, although the group's balance was paid. */
  lemma BatchCheckoutOfWholeBalanceWritesNoInvoice(userGroups: seq<Group>, cat: Catalog, et: EnrollmentTable,
                                                   it: InvoiceTable, meta: map<string, string>, orderId: nat,
                                                   userId: nat, items: seq<OrderItem>)
    requires userId > 0 && LastTaggedGroup(items).Some?
    requires forall i :: 0 <= i < |et.rows| && IsPendingFor(et.rows[i], IntVal(LastTaggedGroup(items).value)) ==>
               et.rows[i].id as int in TaggedIds(items)
    ensures var (_, et2, it2) := ProcessOrder(userGroups, cat, et, it, meta, orderId, userId, items);
            it2 == it && PendingEnrollments(et2.rows, IntVal(LastTaggedGroup(items).value)) == []
  {
    var groupId := IntVal(LastTaggedGroup(items).value);
    var linked := LinkedById(et.rows, TaggedIds(items), orderId);
    assert forall i :: 0 <= i < |linked| ==> !IsPendingFor(linked[i], groupId);
    NothingPending(linked, groupId);
  }

  /** The batch checkout as intended: `create_invoice` first, so the invoice records the
      group's whole balance and links it to the order, then the tagged enrollments. */
  function AdminSettledIntended(et: EnrollmentTable, it: InvoiceTable, cat: Catalog, groupId: string, ids: seq<int>,
                                orderId: nat): (EnrollmentTable, InvoiceTable)
  {
    var (et2, it2, _) := InvoiceCreated(et, it, cat, IntVal(groupId), orderId);
    (et2.(rows := LinkedById(et2.rows, ids, orderId)), it2)
  }

  /** With the invoice written first, a batch checkout of a group with a balance writes
      one paid invoice for exactly that balance, links every tagged enrollment to the
      order, and leaves nothing pending. */
  lemma BatchCheckoutIntendedInvoicesBalance(et: EnrollmentTable, it: InvoiceTable, cat: Catalog, groupId: string,
                                             ids: seq<int>, orderId: nat)
    requires WellFormed(et) && WellFormedInvoices(it) && orderId > 0
    requires PendingEnrollments(et.rows, IntVal(groupId)) != []
    ensures var (et2, it2) := AdminSettledIntended(et, it, cat, groupId, ids, orderId);
            |it2.invoices| == |it.invoices| + 1 && it2.invoices[..|it.invoices|] == it.invoices &&
            it2.invoices[|it.invoices|].totalAmount == RunningTotal(cat, et.rows, IntVal(groupId)) &&
            it2.invoices[|it.invoices|].status == Paid && it2.invoices[|it.invoices|].orderId == Some(orderId) &&
            |et2.rows| == |et.rows| &&
            (forall i :: 0 <= i < |et.rows| && et.rows[i].id as int in ids ==> et2.rows[i].orderId == Some(orderId)) &&
            PendingEnrollments(et2.rows, IntVal(groupId)) == []
  {
    CreateInvoiceOutcome(et, it, cat, IntVal(groupId), orderId);
    CreateInvoiceSettlesGroup(et, it, cat, IntVal(groupId), orderId);
    var settled := InvoiceCreated(et, it, cat, IntVal(groupId), orderId).0.rows;
    var rows := LinkedById(settled, ids, orderId);
    assert forall i :: 0 <= i < |settled| ==> !IsPendingFor(settled[i], IntVal(groupId)) by {
      forall i | 0 <= i < |settled| ensures !IsPendingFor(settled[i], IntVal(groupId)) {
        assert settled[i] in settled;
      }
    }
    assert forall i :: 0 <= i < |rows| ==> !IsPendingFor(rows[i], IntVal(groupId));
    NothingPending(rows, IntVal(groupId));
  }

  // ---------------------------------------------------------------------------
  // The member checkout bills the whole group to the member's order

  /** Member lines touch no other user's rows: they only append rows and link the
      purchaser's own. */
  lemma {:induction false} MemberItemsKeepsOthers(et: EnrollmentTable, cat: Catalog, groupId: nat, userId: nat, orderId: nat,
                                                  items: seq<OrderItem>)
    ensures var after := MemberItems(et, cat, groupId, userId, orderId, items);
            |after.rows| >= |et.rows| &&
            forall i :: 0 <= i < |et.rows| && et.rows[i].userId != userId ==> after.rows[i] == et.rows[i]
  {
    if items != [] {
      var before := MemberItems(et, cat, groupId, userId, orderId, items[..|items| - 1]);
      MemberItemsKeepsOthers(et, cat, groupId, userId, orderId, items[..|items| - 1]);
      match ItemCourse(cat, items[|items| - 1])
      case None =>
      case Some(course) =>
        var item := items[|items| - 1];
        var (enrolled, _) := Enroll(before, groupId, userId, IntVal(course), VersionFrom(ItemEntries(cat, item), course), userId, userId);
        assert enrolled.rows[..|before.rows|] == before.rows;
        assert forall i :: 0 <= i < |before.rows| ==> enrolled.rows[i] == before.rows[i];
    }
  }

  /** As written, a member who is not the group's administrator and checks out their
      own courses (payment bypassed) also settles every other member's pending
      enrollment with their order, under a paid invoice covering those courses too. */
  lemma MemberCheckoutBillsOtherMembers(userGroups: seq<Group>, cat: Catalog, et: EnrollmentTable, it: InvoiceTable,
                                        meta: map<string, string>, orderId: nat, userId: nat, items: seq<OrderItem>, k: nat)
    requires WellFormed(et) && WellFormedInvoices(it) && userId > 0 && orderId > 0
    requires LastTaggedGroup(items).None? && userGroups != [] && userGroups[0].adminUserId != userId
    requires k < |et.rows| && IsPendingFor(et.rows[k], userGroups[0].id) && et.rows[k].userId != userId
    ensures var (_, et2, it2) := ProcessOrder(userGroups, cat, et, it, meta, orderId, userId, items);
            |et2.rows| >= |et.rows| && et2.rows[k] == et.rows[k].(orderId := Some(orderId)) &&
            |it2.invoices| == |it.invoices| + 1 && it2.invoices[|it.invoices|].status == Paid &&
            it2.invoices[|it.invoices|].totalAmount >= CoursePrice(cat, et.rows[k].courseId)
  {
    var groupId := userGroups[0].id;
    var enrolled := MemberItems(et, cat, groupId, userId, orderId, items);
    MemberItemsKeepsOthers(et, cat, groupId, userId, orderId, items);
    MemberItemsWellFormed(et, cat, groupId, userId, orderId, items);
    assert enrolled.rows[k] == et.rows[k];
    var pending := PendingEnrollments(enrolled.rows, groupId);
    assert et.rows[k] in pending;
    SumPricesCovers(cat, pending);
    CreateInvoiceOutcome(enrolled, it, cat, groupId, orderId);
    CreateInvoiceSettlesGroup(enrolled, it, cat, groupId, orderId);
  }

  /** The member lines as intended for an ordinary member: enroll only, no order link. */
  function EnrolledOnly(et: EnrollmentTable, cat: Catalog, groupId: nat, userId: nat, items: seq<OrderItem>): EnrollmentTable {
    if items == [] then et
    else
      var before := EnrolledOnly(et, cat, groupId, userId, items[..|items| - 1]);
      var item := items[|items| - 1];
      match ItemCourse(cat, item)
      case None => before
      case Some(course) =>
        Enroll(before, groupId, userId, IntVal(course), VersionFrom(ItemEntries(cat, item), course), userId, userId).0
  }

  /** The member checkout as intended: the group's administrator settles their own
      purchase at once, as written; an ordinary member's enrollments stay pending for
      the administrator to pay, and no invoice is written. */
  function MemberSettledIntended(et: EnrollmentTable, it: InvoiceTable, cat: Catalog, group: Group, userId: nat,
                                 orderId: nat, items: seq<OrderItem>): (EnrollmentTable, InvoiceTable)
  {
    if userId == group.adminUserId then MemberSettled(et, it, cat, group.id, userId, orderId, items)
    else (EnrolledOnly(et, cat, group.id, userId, items), it)
  }

  /** Enrolling only appends rows, each active, unbilled and the purchaser's. */
  lemma {:induction false} EnrolledOnlyAppends(et: EnrollmentTable, cat: Catalog, groupId: nat, userId: nat, items: seq<OrderItem>)
    ensures var after := EnrolledOnly(et, cat, groupId, userId, items);
            |after.rows| >= |et.rows| && after.rows[..|et.rows|] == et.rows &&
            forall i :: |et.rows| <= i < |after.rows| ==> IsPendingFor(after.rows[i], groupId) && after.rows[i].userId == userId
  {
    if items != [] {
      var before := EnrolledOnly(et, cat, groupId, userId, items[..|items| - 1]);
      EnrolledOnlyAppends(et, cat, groupId, userId, items[..|items| - 1]);
      var after := EnrolledOnly(et, cat, groupId, userId, items);
      assert after.rows[..|before.rows|] == before.rows;
      assert after.rows[..|et.rows|] == before.rows[..|et.rows|];
    }
  }

  /** The pending rows of a table split at any point are those of each part. */
  lemma {:induction false} PendingConcat(a: seq<Enrollment>, b: seq<Enrollment>, groupId: int)
    ensures PendingEnrollments(a + b, groupId) == PendingEnrollments(a, groupId) + PendingEnrollments(b, groupId)
  {
    if a == [] {
      assert a + b == b;
    } else {
      assert (a + b)[0] == a[0] && (a + b)[1..] == a[1..] + b;
      PendingConcat(a[1..], b, groupId);
    }
  }

  /** Totals add up over concatenation. */
  lemma {:induction false} SumPricesConcat(cat: Catalog, a: seq<Enrollment>, b: seq<Enrollment>)
    ensures SumPrices(cat, a + b) == SumPrices(cat, a) + SumPrices(cat, b)
  {
    if b == [] {
      assert a + b == a;
    } else {
      assert (a + b)[..|a + b| - 1] == a + b[..|b| - 1];
      SumPricesConcat(cat, a, b[..|b| - 1]);
    }
  }

  /** With the intended member checkout, an ordinary member's purchase changes no
      existing row and writes no invoice: their new enrollments are added, pending, to
      the group's running total. */
  lemma MemberCheckoutIntendedLeavesBalance(et: EnrollmentTable, it: InvoiceTable, cat: Catalog, group: Group, userId: nat,
                                            orderId: nat, items: seq<OrderItem>)
    requires userId != group.adminUserId
    ensures var (et2, it2) := MemberSettledIntended(et, it, cat, group, userId, orderId, items);
            it2 == it && |et2.rows| >= |et.rows| && et2.rows[..|et.rows|] == et.rows &&
            (forall i :: |et.rows| <= i < |et2.rows| ==> IsPendingFor(et2.rows[i], group.id) && et2.rows[i].userId == userId) &&
            RunningTotal(cat, et2.rows, group.id) ==
              RunningTotal(cat, et.rows, group.id) + SumPrices(cat, PendingEnrollments(et2.rows[|et.rows|..], group.id))
  {
    var after := EnrolledOnly(et, cat, group.id, userId, items);
    EnrolledOnlyAppends(et, cat, group.id, userId, items);
    assert after.rows == et.rows + after.rows[|et.rows|..];
    PendingConcat(et.rows, after.rows[|et.rows|..], group.id);
    SumPricesConcat(cat, PendingEnrollments(et.rows, group.id), PendingEnrollments(after.rows[|et.rows|..], group.id));
  }

  /** `process_group_order` with both checkout branches as intended. */
  function ProcessOrderIntended(userGroups: seq<Group>, cat: Catalog, et: EnrollmentTable, it: InvoiceTable,
                                meta: map<string, string>, orderId: nat, userId: nat, items: seq<OrderItem>)
    : (map<string, string>, EnrollmentTable, InvoiceTable)
  {
    if userId == 0 then (meta, et, it)
    else match LastTaggedGroup(items)
      case Some(groupId) =>
        var (et2, it2) := AdminSettledIntended(et, it, cat, groupId, TaggedIds(items), orderId);
        (meta[GroupIdKey := groupId][GroupOrderKey := "yes"][AdminCheckoutKey := "yes"], et2, it2)
      case None =>
        if userGroups == [] then (meta, et, it)
        else
          var (et2, it2) := MemberSettledIntended(et, it, cat, userGroups[0], userId, orderId, items);
          (meta[GroupIdKey := NatToString(userGroups[0].id)][GroupOrderKey := "yes"], et2, it2)
  }

  /** The intended reconciliation: a batch checkout of a group with a balance writes a
      paid invoice for that whole balance; an ordinary member's self-checkout writes no
      invoice and leaves every existing row, other members' included, as it was. */
  lemma IntendedCheckoutOutcome(userGroups: seq<Group>, cat: Catalog, et: EnrollmentTable, it: InvoiceTable,
                                meta: map<string, string>, orderId: nat, userId: nat, items: seq<OrderItem>)
    requires WellFormed(et) && WellFormedInvoices(it) && userId > 0 && orderId > 0
    ensures var (_, et2, it2) := ProcessOrderIntended(userGroups, cat, et, it, meta, orderId, userId, items);
            (LastTaggedGroup(items).Some? && PendingEnrollments(et.rows, IntVal(LastTaggedGroup(items).value)) != [] ==>
               |it2.invoices| == |it.invoices| + 1 &&
               it2.invoices[|it.invoices|].totalAmount == RunningTotal(cat, et.rows, IntVal(LastTaggedGroup(items).value))) &&
            (LastTaggedGroup(items).None? && userGroups != [] && userGroups[0].adminUserId != userId ==>
               it2 == it && |et2.rows| >= |et.rows| && et2.rows[..|et.rows|] == et.rows)
  {
    match LastTaggedGroup(items)
    case Some(groupId) =>
      if PendingEnrollments(et.rows, IntVal(groupId)) != [] {
        BatchCheckoutIntendedInvoicesBalance(et, it, cat, groupId, TaggedIds(items), orderId);
      }
    case None =>
      if userGroups != [] && userGroups[0].adminUserId != userId {
        MemberCheckoutIntendedLeavesBalance(et, it, cat, userGroups[0], userId, orderId, items);
      }
  }

  // ---------------------------------------------------------------------------
  // The LIKE lookup finds variations of other courses

  /** A variation whose only entry is course 25, version 2: its stored text
      `a:1:{i:0;s:4:"25:2";}` contains "1", so the LIKE lookup for course 1 returns it. */
  lemma LikeLookupMatchesOtherCourse()
    ensures var cat := Catalog(map[], map[7 := ["25:2"]], map[], [], [7], [], map[]);
            ProductIdFromCourse(cat, 1) == Some("7") &&
            !LooseEquals(BeforeColon("25:2"), NatToString(1)) &&
            ProductIdFromCourseIntended(cat, 1).None?
  {
    var cat := Catalog(map[], map[7 := ["25:2"]], map[], [], [7], [], map[]);
    var text := Serialize(["25:2"]);
    assert NatToString(1) == "1" && NatToString(7) == "7";
    assert text[2..] == "1" + text[3..];
    assert Contains(text[1..], "1");
    assert Contains(text, "1");
    assert FirstLinkedTo([], cat.linkedIdMeta, "1") == None;
    assert FirstListing([7], cat.variableCourseIds, "1") == Some(7);
    assert BeforeColon("25:2") == "25";
    assert DigitsValue("25") == 25 by { assert "25"[..1] == "2"; }
    assert !ListsCourseAt(cat.variableCourseIds, 7, 1);
    assert FirstListingOf([7][1..], cat.variableCourseIds, 1) == None;
  }

  /** The entry names the course by its course part, as PHP's loose `==` compares them. */
  predicate ListsCourse(entries: seq<string>, courseId: nat) {
    exists k :: 0 <= k < |entries| && LooseEquals(BeforeColon(entries[k]), NatToString(courseId))
  }

  /** The post's course list has an entry for the course. */
  predicate ListsCourseAt(meta: map<nat, seq<string>>, post: nat, courseId: nat) {
    post in meta && ListsCourse(meta[post], courseId)
  }

  /** The first post whose course list names the course by its course part. */
  function FirstListingOf(posts: seq<nat>, meta: map<nat, seq<string>>, courseId: nat): (r: Option<nat>)
    ensures r.Some? ==> exists k :: 0 <= k < |posts| && posts[k] == r.value && ListsCourseAt(meta, posts[k], courseId) &&
                          forall j :: 0 <= j < k ==> !ListsCourseAt(meta, posts[j], courseId)
    ensures r.None? ==> forall j :: 0 <= j < |posts| ==> !ListsCourseAt(meta, posts[j], courseId)
  {
    if posts == [] then None
    else if ListsCourseAt(meta, posts[0], courseId) then Some(posts[0])
    else
      var r := FirstListingOf(posts[1..], meta, courseId);
      assert forall j :: 1 <= j < |posts| ==> posts[j] == posts[1..][j - 1];
      assert r.Some? ==> exists k :: 1 <= k < |posts| && posts[k] == r.value && ListsCourseAt(meta, posts[k], courseId) &&
                          forall j :: 0 <= j < k ==> !ListsCourseAt(meta, posts[j], courseId) by {
        if r.Some? {
          var k :| 0 <= k < |posts[1..]| && posts[1..][k] == r.value && ListsCourseAt(meta, posts[1..][k], courseId) &&
                   forall j :: 0 <= j < k ==> !ListsCourseAt(meta, posts[1..][j], courseId);
          assert posts[k + 1] == r.value;
        }
      }
      r
  }

  /** `get_product_id_from_course` as intended: the variation fallback returns only a
      variation one of whose entries is for the course. */
  function ProductIdFromCourseIntended(cat: Catalog, courseId: nat): (r: Option<string>)
    ensures Truthy(PostMeta(cat.linkedIdMeta, courseId)) ==> r == Some(PostMeta(cat.linkedIdMeta, courseId))
    ensures !Truthy(PostMeta(cat.linkedIdMeta, courseId)) &&
            (exists k :: 0 <= k < |cat.productPosts| && PostMeta(cat.linkedIdMeta, cat.productPosts[k]) == NatToString(courseId)) ==>
              exists k :: 0 <= k < |cat.productPosts| && r == Some(NatToString(cat.productPosts[k])) &&
                          PostMeta(cat.linkedIdMeta, cat.productPosts[k]) == NatToString(courseId) &&
                          forall j :: 0 <= j < k ==> PostMeta(cat.linkedIdMeta, cat.productPosts[j]) != NatToString(courseId)
    ensures !Truthy(PostMeta(cat.linkedIdMeta, courseId)) &&
            (forall k :: 0 <= k < |cat.productPosts| ==> PostMeta(cat.linkedIdMeta, cat.productPosts[k]) != NatToString(courseId)) &&
            r.Some? ==>
              exists k :: 0 <= k < |cat.variationPosts| && r == Some(NatToString(cat.variationPosts[k])) &&
                          ListsCourseAt(cat.variableCourseIds, cat.variationPosts[k], courseId) &&
                          forall j :: 0 <= j < k ==> !ListsCourseAt(cat.variableCourseIds, cat.variationPosts[j], courseId)
    ensures r.None? <==>
              !Truthy(PostMeta(cat.linkedIdMeta, courseId)) &&
              (forall k :: 0 <= k < |cat.productPosts| ==> PostMeta(cat.linkedIdMeta, cat.productPosts[k]) != NatToString(courseId)) &&
              (forall k :: 0 <= k < |cat.variationPosts| ==> !ListsCourseAt(cat.variableCourseIds, cat.variationPosts[k], courseId))
  {
    var direct := PostMeta(cat.linkedIdMeta, courseId);
    if Truthy(direct) then Some(direct)
    else match FirstLinkedTo(cat.productPosts, cat.linkedIdMeta, NatToString(courseId))
      case Some(product) => Some(NatToString(product))
      case None =>
        match FirstListingOf(cat.variationPosts, cat.variableCourseIds, courseId)
        case Some(variation) => Some(NatToString(variation))
        case None => None
  }
}
