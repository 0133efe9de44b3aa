# BHFE Groups: a verified model of group enrollment, invoicing and checkout

BHFE Groups is a WordPress/WooCommerce plugin. It lets an organisation's administrator
run a group of users, enroll them in courses and pay for them all in one checkout.
This project models its bookkeeping in Dafny:

- **Registry** (`class-bhfe-groups-database.php`): groups and their membership rows.
  A membership is soft-deleted and reactivated, never deleted.
- **Enrollments** (`class-bhfe-groups-enrollment.php`): the enrollment ledger.
  An enrollment is *pending* while it is active and no order has paid for it. Unenrolling
  cancels a row, and the course price is read from the linked shop product.
- **Invoices** (`class-bhfe-groups-invoice.php`): the running total of a group's pending
  enrollments, and invoices. An invoice links the pending rows to an order and can be marked paid.
- **Checkout** (`class-bhfe-groups-woocommerce.php`): product/course lookups in both
  directions, the payment bypass for group members, and `process_group_order`. That
  function settles the administrator's batch checkout or a member's own checkout
  against the enrollment and invoice ledgers.
- **AccountMenu** (`class-bhfe-groups-frontend.php`): the "Groups" entry of the customer
  account menu.
- **Php** and **Platform**: the PHP value semantics and the WordPress data these rely on:
  - truthiness of strings, `intval`, `absint`, loose `==`, and `explode(':')`;
  - post meta, `get_posts` in query order, and `serialize`;
  - the catalog of products, variations, courses and prices.

Each database-backed PHP class is a Dafny `class`: `GroupsDatabase`, `EnrollmentLedger`
and `InvoiceLedger`. Their tables are `seq` fields, with an id counter and a clock for
`current_time`. Every method that writes a table is proved equal to a pure transition
function on the table value: `MemberAdded`, `Enroll`, `InvoiceCreated`, `MarkedPaid`,
`ProcessOrder` and others. What the plugin promises is then proved about those functions
as lemmas. The loops of the source are `while` loops with invariants in the methods.
Pure lookups, such as `get_course_id_from_product`, are functions.

Some behaviours of the code differ from what its schema or its comments suggest. The model follows the code:

- No price snapshot is stored. The schema has a `course_price` column, but it is never written. Totals use
  the product's current price (`get_course_price`).
- `unenroll_user` cancels every row of the (group, user, course, version) tuple, and
  always reports success.
- `create_group` accepts an empty name.
- A member's own checkout settles the whole group's pending balance with a paid invoice.
  The comment in `maybe_bypass_payment` (`class-bhfe-groups-woocommerce.php` line 302)
  says the administrator "will be invoiced separately". This is recorded under Findings.

The invoice status the source stores as `'pending'` is called `Unpaid`. This keeps it
apart from the enrollment status `Pending`. Money is integer cents.

## Model

| member | source | states |
|---|---|---|
| Registry.GroupsDatabase.CreateGroup | includes/class-bhfe-groups-database.php:159-178 | appends one active group with a fresh auto-increment id above every existing id, leaves memberships alone, and the creator is then its administrator |
| Registry.GroupsDatabase.GetGroupsByAdmin | includes/class-bhfe-groups-database.php:131-135 | exactly the active groups the user administers, each once, ordered by name |
| Registry.GroupsDatabase.GetUserGroups | includes/class-bhfe-groups-database.php:140-154 | exactly the active groups in which the user has an active membership, each once, ordered by name |
| Registry.GroupsDatabase.IsGroupMember | includes/class-bhfe-groups-database.php:264-276 | true iff the user has an active membership row in the group |
| Registry.GroupsDatabase.IsGroupAdmin | includes/class-bhfe-groups-database.php:281-293 | true iff an active group with that id has the user as administrator |
| Registry.GroupsDatabase.FindMemberId | includes/class-bhfe-groups-database.php:209-213 | finds the membership row of the (group, user) pair, whatever its status, iff one exists |
| Registry.GroupsDatabase.AddMember | includes/class-bhfe-groups-database.php:204-243 | reactivates the pair's existing row (new added_by, same id) or inserts one active row with the next id; groups unchanged; the table keeps unique ids below the counter |
| Registry.GroupsDatabase.RemoveMember | includes/class-bhfe-groups-database.php:248-259 | soft-deletes the pair's rows and reports 1 exactly when the pair had an active membership |
| Registry.SortByName | includes/class-bhfe-groups-database.php:134 | `ORDER BY name ASC`: the result is sorted by name and is a permutation of the input |
| Registry.CountActiveMemberships | includes/class-bhfe-groups-database.php:266-275 | the `COUNT(*)` of active rows is positive iff the pair has an active membership |
| Registry.ActivateRow | includes/class-bhfe-groups-database.php:215-225 | the loop that reactivates the row with the given id yields exactly the reactivated table |
| Registry.ReactivatedIsUpdate | includes/class-bhfe-groups-database.php:215-225 | on a table with unique ids, updating by id changes exactly the one matching row |
| Registry.DeactivatePair | includes/class-bhfe-groups-database.php:250-256 | the UPDATE loop yields the soft-deleted table and counts the rows it changed |
| Registry.MemberAddedWellKeyed | includes/class-bhfe-groups-database.php:227-240 | adding a member keeps membership ids unique and below the advanced counter |
| Registry.AtMostOneActive | includes/class-bhfe-groups-database.php:54 | under the unique (group_id, user_id) key a pair has at most one active row |
| Registry.AddMemberSingleRow | includes/class-bhfe-groups-database.php:204-243 | after add_member the pair has exactly one row, active, with the returned id and the new added_by; the unique key is kept |
| Registry.AddExistingMemberReactivates | includes/class-bhfe-groups-database.php:215-225 | adding a pair that already has a row updates that row in place and returns its id |
| Registry.RemoveMemberIsSoft | includes/class-bhfe-groups-database.php:248-259 | removal keeps every row and id, marks the pair's rows inactive, and changes nothing when the pair has no row |
| Registry.AddRemoveAddSingleActiveRow | includes/class-bhfe-groups-database.php:204-259 | add, remove, add again leaves one row for the pair, and it is active |
| Enrollments.PendingEnrollments | includes/class-bhfe-groups-enrollment.php:137-155 | exactly the group's active rows with no order, oldest first |
| Enrollments.GroupEnrollments | includes/class-bhfe-groups-enrollment.php:113-132 | exactly the group's rows with the requested status (all rows when none is given), newest first |
| Enrollments.PendingAreUnbilledActive | includes/class-bhfe-groups-enrollment.php:113-155 | the pending list is the active list restricted to rows without an order |
| Enrollments.CoursePrice | includes/class-bhfe-groups-enrollment.php:171-182 | a truthy link naming a product that loads gives that product's price; otherwise the price is 0 |
| Enrollments.CoursePriceOfLinkedProduct | includes/class-bhfe-groups-enrollment.php:171-182 | a course linked to a loadable product costs that product's price, and the same course without a link costs 0 |
| Enrollments.EnrollOutcome | includes/class-bhfe-groups-enrollment.php:24-81 | a live (pending or active) row for the same tuple blocks the insert and changes nothing; otherwise exactly one active, unbilled row is appended with a fresh id, absint course and version, and the enroller defaulting to the current user |
| Enrollments.ReenrollAfterCancel | includes/class-bhfe-groups-enrollment.php:33-45 | after unenrolling a tuple, enrolling it again succeeds |
| Enrollments.UnenrollKeepsBilling | includes/class-bhfe-groups-enrollment.php:86-108 | unenroll cancels every row of the tuple, keeps its order link, removes it from the pending list, and leaves other rows alone |
| Enrollments.NegativeVersionEscapesDuplicateCheck | includes/class-bhfe-groups-enrollment.php:33-58 | a negative version is compared before absint but stored after it, so two calls insert two live rows for the same stored tuple |
| Enrollments.EnrollmentLedger.FindLive | includes/class-bhfe-groups-enrollment.php:33-45 | finds a live row of the tuple iff one exists |
| Enrollments.EnrollmentLedger.SetStatus | includes/class-bhfe-groups-enrollment.php:68-75 | only the row with the given id takes the new status |
| Enrollments.EnrollmentLedger.EnrollUser | includes/class-bhfe-groups-enrollment.php:24-81 | the new table and result are those of `Enroll`, and the ledger stays well formed |
| Enrollments.EnrollmentLedger.UnenrollUser | includes/class-bhfe-groups-enrollment.php:86-108 | the rows become those of `TupleCancelled`, and the call reports success |
| Invoices.SumPricesCovers | includes/class-bhfe-groups-invoice.php:24-36 | the running total is at least the price of each pending row, and 0 with none |
| Invoices.InvoiceLedger.CalculateRunningTotal | includes/class-bhfe-groups-invoice.php:24-36 | the loop returns the sum of current course prices over the group's pending rows |
| Invoices.InvoiceLedger.TotalAndIds | includes/class-bhfe-groups-invoice.php:51-58 | the loop sums the pending rows' prices and collects their ids in order |
| Invoices.InvoiceLedger.LinkEnrollmentsToOrder | includes/class-bhfe-groups-invoice.php:91-101 | exactly the rows whose id is listed take the order |
| Invoices.InvoiceLedger.CreateInvoice | includes/class-bhfe-groups-invoice.php:41-86 | the new enrollment and invoice tables and the result are those of `InvoiceCreated`; both ledgers stay well formed |
| Invoices.CreateInvoiceOutcome | includes/class-bhfe-groups-invoice.php:41-86 | nothing pending means no invoice and no change; otherwise one invoice is appended with a fresh id, the group's running total, and paid with the order iff an order is given |
| Invoices.InvoiceCreatedWellFormed | includes/class-bhfe-groups-invoice.php:62-80 | create_invoice keeps enrollment and invoice ids unique and below their counters |
| Invoices.CreateInvoiceSettlesGroup | includes/class-bhfe-groups-invoice.php:77-80 | with an order, exactly the group's pending rows take it, and afterwards nothing is pending and the running total is 0 |
| Invoices.InvoiceWithoutOrderRepeats | includes/class-bhfe-groups-invoice.php:41-86 | without an order nothing is linked, so a second call writes a second unpaid invoice for the same total |
| Invoices.ListedOnlyIfPending | includes/class-bhfe-groups-invoice.php:51-58 | an id collected for linking belongs to a pending row of the group |
| Invoices.InvoicesOf | includes/class-bhfe-groups-invoice.php:106-116 | exactly the group's invoices, in table order |
| Invoices.InvoiceLedger.GroupInvoices | includes/class-bhfe-groups-invoice.php:106-116 | exactly the group's invoices, newest first |
| Invoices.InvoiceLedger.InvoiceById | includes/class-bhfe-groups-invoice.php:121-129 | an invoice with the requested id, or none when no invoice has it |
| Invoices.FindInvoice | includes/class-bhfe-groups-invoice.php:121-129 | an invoice of the list with the id, or none when no invoice has it |
| Invoices.InvoiceLedger.MarkInvoicePaid | includes/class-bhfe-groups-invoice.php:134-154 | only the invoice with the absint id becomes paid, dated now, taking the order when one is given; reports 1 iff such an invoice exists |
| Invoices.MarkRowsPaid | includes/class-bhfe-groups-invoice.php:140-153 | the UPDATE loop yields the marked table and counts a match |
| Php.IntValOfNatToString | includes/class-bhfe-groups-woocommerce.php:395-397 | an id written as decimal meta text reads back, through `%d`/`intval`, as the same id |
| Php.ColonSplit | includes/class-bhfe-groups-woocommerce.php:326-334 | `explode(':')` loses nothing: the first field, the colon and the rest give back the string |
| Checkout.CourseIdFromProduct | includes/class-bhfe-groups-woocommerce.php:314-356 | the product's own link meta when truthy, else the course part of the first variable entry, else of the first simple entry, else the id of the first course (in query order) whose link meta names the product; none iff all four fail |
| Checkout.ProductIdFromCourse | includes/class-bhfe-groups-woocommerce.php:174-217 | the course's link meta when truthy, else the first product linked to the course whenever one exists, else the first variation whose serialized list contains the id; none iff all three fail |
| Checkout.TruthyId | includes/class-bhfe-groups-woocommerce.php:295 | an id's decimal text is truthy iff the id is not 0 |
| Checkout.CourseProductRoundTrip | includes/class-bhfe-groups-woocommerce.php:174-356 | a course linked to a product, and no other, goes to that product and back to itself, and both ids read back as numbers |
| Checkout.VersionFrom | includes/class-bhfe-groups-woocommerce.php:433-460 | the version part of the first entry naming the course, 1 when no entry names it |
| Checkout.CourseVersion | includes/class-bhfe-groups-woocommerce.php:435-460 | the scan with early break returns `VersionFrom` |
| Checkout.VersionOfListedPair | includes/class-bhfe-groups-woocommerce.php:435-460 | a listed "course:version" pair yields that version; an empty list yields 1 |
| Checkout.CartAllCourses | includes/class-bhfe-groups-woocommerce.php:285-299 | the flag-and-break loop is true iff every cart line resolves to a truthy course |
| Checkout.MaybeBypassPayment | includes/class-bhfe-groups-woocommerce.php:271-308 | no user, no cart or no group leaves the answer alone; otherwise payment is waived exactly when every line is a course; a waiver implies a logged-in member of an active group |
| Checkout.TaggedIds | includes/class-bhfe-groups-woocommerce.php:374-383 | collects the id of every line tagged with enrollment and group; empty iff no line is tagged |
| Checkout.TaggedLines | includes/class-bhfe-groups-woocommerce.php:374-383 | the positions of exactly the tagged lines, increasing |
| Checkout.TaggedIdsInLineOrder | includes/class-bhfe-groups-woocommerce.php:374-383 | the batch ids are one id per tagged line, in line order, and none from any other line |
| Checkout.LastTaggedGroup | includes/class-bhfe-groups-woocommerce.php:374-383 | the group of the last tagged line, none iff no line is tagged |
| Checkout.ReadTaggedLines | includes/class-bhfe-groups-woocommerce.php:374-383 | the loop returns the last tagged group and the tagged ids, and finds a group iff it found ids |
| Checkout.LinkEnrollmentToOrder | includes/class-bhfe-groups-woocommerce.php:484-499 | every row of the purchaser's course in the group, any version or status, takes the order; nothing else changes |
| Checkout.EnrollOrderLines | includes/class-bhfe-groups-woocommerce.php:423-473 | the member loop enrolls and links each course line in order, as `MemberItems` |
| Checkout.MemberItemsWellFormed | includes/class-bhfe-groups-woocommerce.php:423-473 | the member loop keeps the ledger's ids unique |
| Checkout.SettleTaggedLines | includes/class-bhfe-groups-woocommerce.php:392-402 | the batch branch links the tagged ids and then calls create_invoice, as `AdminSettled` |
| Checkout.SettleMemberLines | includes/class-bhfe-groups-woocommerce.php:423-478 | the member branch enrolls and links the lines and then calls create_invoice, as `MemberSettled` |
| Checkout.ProcessGroupOrder | includes/class-bhfe-groups-woocommerce.php:361-479 | the order meta and both ledgers end as `ProcessOrder` says, given the purchaser's groups |
| Checkout.StepSettles | includes/class-bhfe-groups-woocommerce.php:463-472 | after a course line, the purchaser has a live row of that course linked to the order |
| Checkout.StepKeepsSettled | includes/class-bhfe-groups-woocommerce.php:423-473 | later lines keep a course already settled |
| Checkout.MemberItemsSettle | includes/class-bhfe-groups-woocommerce.php:423-473 | after the loop, every course line of the order is settled |
| Checkout.InvoiceKeepsSettled | includes/class-bhfe-groups-woocommerce.php:476-478 | create_invoice after the loop keeps every settled course settled |
| Checkout.MemberSettledLinks | includes/class-bhfe-groups-woocommerce.php:423-478 | the member branch settles every course line and, with an order, leaves nothing pending in the group |
| Checkout.MemberCheckoutEnrollsAndLinks | includes/class-bhfe-groups-woocommerce.php:408-478 | a member order records the first group in its meta, settles every course line, and leaves nothing pending in that group |
| Checkout.AdminSettledLinks | includes/class-bhfe-groups-woocommerce.php:392-402 | every tagged row takes the order; rows that are neither tagged nor pending are unchanged; with an order nothing stays pending |
| Checkout.BatchCheckoutLinksTagged | includes/class-bhfe-groups-woocommerce.php:386-405 | a batch order records group, group-order and admin-checkout meta, and settles the tagged rows as `AdminSettledLinks` states |
| Checkout.BatchCheckoutOfWholeBalanceWritesNoInvoice | includes/class-bhfe-groups-woocommerce.php:392-402 | as written: when the tagged lines cover every pending row, the invoice table does not change |
| Checkout.BatchCheckoutIntendedInvoicesBalance | includes/class-bhfe-groups-woocommerce.php:386-405 | as intended: a batch checkout appends one paid invoice for the whole prior balance, linked to the order, and leaves nothing pending |
| Checkout.MemberCheckoutBillsOtherMembers | includes/class-bhfe-groups-woocommerce.php:408-478 | as written: an ordinary member's order links another member's pending row to itself and writes a paid invoice covering its price |
| Checkout.MemberCheckoutIntendedLeavesBalance | includes/class-bhfe-groups-woocommerce.php:408-478 | as intended: an ordinary member's order writes no invoice and changes no existing row; the new pending rows add their prices to the running total |
| Checkout.IntendedCheckoutOutcome | includes/class-bhfe-groups-woocommerce.php:361-479 | with both branches corrected, a batch checkout invoices the whole balance and a member checkout bills nothing |
| Checkout.LikeLookupMatchesOtherCourse | includes/class-bhfe-groups-woocommerce.php:199-214 | as written the lookup for course 1 returns a variation that lists only course 25; the intended lookup returns none |
| Checkout.FirstListingOf | includes/class-bhfe-groups-woocommerce.php:199-214 | the first variation, in query order, with an entry for the course by its course part, or none when no variation has one |
| Checkout.ProductIdFromCourseIntended | includes/class-bhfe-groups-woocommerce.php:174-217 | as intended: the link meta, else the first linked product whenever one exists, else the first variation with an entry for the course; none iff all three fail |
| AccountMenu.Put | includes/class-bhfe-groups-frontend.php:63 | `$a[$k] = $v` keeps an existing key in place with the new value, appends a new key, and keeps keys distinct |
| AccountMenu.AddGroupsMenuItem | includes/class-bhfe-groups-frontend.php:54-75 | the loop returns `GroupsMenu`; a user who may manage groups gets the "groups" key, and keys stay distinct |
| AccountMenu.GroupsMenuHasGroups | includes/class-bhfe-groups-frontend.php:54-75 | without the capability the menu is unchanged; with it, the menu has "groups" and distinct keys |
| AccountMenu.DistinctCopy | includes/class-bhfe-groups-frontend.php:61-67 | copying the menu keeps keys distinct |
| AccountMenu.InsertedBehind | includes/class-bhfe-groups-frontend.php:61-72 | the new entry lands right behind the anchor, with every other entry in place |
| AccountMenu.WithoutAnchor | includes/class-bhfe-groups-frontend.php:70-72 | without the anchor the entry is appended, or the menu is unchanged when the key is already there |
| AccountMenu.RelabelledBefore | includes/class-bhfe-groups-frontend.php:61-67 | a key already before the anchor keeps its place and takes the new label |
| AccountMenu.MovedBehind | includes/class-bhfe-groups-frontend.php:61-67 | a key after the anchor moves behind the anchor, keeping its own label |
| AccountMenu.GroupsInsertedAfterOrders | includes/class-bhfe-groups-frontend.php:54-75 | "Groups" is inserted right after "orders" |
| AccountMenu.GroupsWithoutOrders | includes/class-bhfe-groups-frontend.php:70-72 | with no "orders" entry, "Groups" goes at the end |
| AccountMenu.GroupsBeforeOrdersRelabelled | includes/class-bhfe-groups-frontend.php:61-67 | an existing "groups" entry before "orders" is relabelled "Groups" in place |
| AccountMenu.GroupsAfterOrdersMoved | includes/class-bhfe-groups-frontend.php:61-67 | an existing "groups" entry after "orders" moves right behind "orders" |

## Left out

- Database write failures: the `return false` paths after a failed `$wpdb->insert` or `update` are not modelled. Every write succeeds.
- Concurrency: the check-then-insert of `add_member` and `enroll_user` runs atomically here. Two simultaneous requests are not modelled.
- `create_tables`, `ensure_capabilities`, the admin screens, the templates and the plugin bootstrap are not part of this model. They are schema, UI and wiring.
- `get_group` and `get_group_members`: these read helpers are outside the modelled core.
- `handle_group_checkout` and the cart hooks (`add_group_cart_item_data`, `display_group_cart_item_data`, `add_group_info_to_order_item`, `save_group_enrollment_to_order_item`, `show_group_info_in_cart`, `check_group_membership`) are left out. They are WooCommerce session and cart plumbing. The order-line meta they write is an input to `ProcessGroupOrder`.
- `process_flms_enrollment` changes no plugin table, so enrolling is not followed by any LMS call.
- `sanitize_text_field` on group names is not applied. Names are stored as given.
- The joins that add display fields (`display_name`, `user_email`, `post_title`) are left out. So is the way an inner join drops the rows of deleted users.
- Registry.SortByName orders names by character code. MySQL collation, case folding and the order of equal names are not modelled.
- Enrollments.PendingEnrollments lists each pending row once. `get_pending_enrollments` LEFT JOINs the course's `flms_woocommerce_product_id` meta rows. A course carrying that meta key several times therefore repeats the enrollment, and `calculate_running_total` and `create_invoice` then count it more than once. A post meta value here is single-valued, so this is not modelled.
- Timestamps are a per-table clock that advances on each write. Two writes within the same second are not modelled.
- Prices are integer cents taken from a catalog map. The float arithmetic of `get_price()` and `%f` is left out.
- `current_time`, `get_current_user_id`, `current_user_can` and the cart are parameters.
- Php.IntVal reads an optional sign and leading decimal digits. Whitespace, hexadecimal and float forms of numeric strings are not modelled.
- Php.LooseEquals compares numerically only strings made entirely of digits.
- A post meta value that is not an array reads as the empty list.
- Platform.Serialize counts characters, where PHP counts bytes. The two agree on the ASCII ids and versions stored here.
- The `get_posts` order is the order of the catalog's post lists.
- AccountMenu models menu keys as strings compared with `==`. PHP turns integer-like string keys into integers, which is not modelled.
- AccountMenu models the final `isset` as "the key is present". `isset` is also false for a key whose label is `null`, but the plugin never writes a `null` label.
- Checkout.ProcessGroupOrder models `process_group_order` as written, including the two defects under Findings. The corrected behaviour is `ProcessOrderIntended`, a function that is not also written as a method.
- Invoices.InvoiceLedger.MarkInvoicePaid reports 1 for a match because the paid date always changes. MySQL's "rows changed" count would be 0 for a second call within the same second.

## Findings

| source | as written | input that shows it | evidently intended | confidence | as-written member | corrected member |
|---|---|---|---|---|---|---|
| includes/class-bhfe-groups-woocommerce.php:392-402 | the batch checkout links the tagged enrollments to the order first, then calls `create_invoice`, which finds nothing left pending | the administrator pays the group's whole balance: `handle_group_checkout` (lines 95-151) puts every pending enrollment in the cart, so every pending row is tagged and no invoice is written for the payment | one paid invoice for the whole balance, linked to the order (invoice first, then link). The corrected member invoices and links every pending row of the group. That includes rows `handle_group_checkout` left out of the cart because their course has no purchasable product (lines 117-128). It also includes rows whose cart lines merged because they share a course | not executed | Checkout.BatchCheckoutOfWholeBalanceWritesNoInvoice | Checkout.BatchCheckoutIntendedInvoicesBalance |
| includes/class-bhfe-groups-woocommerce.php:476-478 | an ordinary member's own checkout, whose payment `maybe_bypass_payment` waived, calls `create_invoice` for the group with the member's order | group with administrator A and members B and C; C has a pending enrollment; B checks out a course: C's row takes B's order and a paid invoice for the group's balance is written | the member's enrollments stay pending for the administrator to pay, "invoiced separately" (line 302); no invoice and no order link for other rows | not executed | Checkout.MemberCheckoutBillsOtherMembers | Checkout.MemberCheckoutIntendedLeavesBalance |
| includes/class-bhfe-groups-woocommerce.php:199-214 | the variation fallback matches the course id as a substring of the serialized course list (`LIKE '%1%'`) | course 1 with no linked product; variation 7 lists only `"25:2"`, stored as `a:1:{i:0;s:4:"25:2";}`; the lookup for course 1 returns product 7 | only a variation that lists the course itself | not executed | Checkout.LikeLookupMatchesOtherCourse | Checkout.ProductIdFromCourseIntended |
