# Insurance tracker: a Dafny model of its entity rules and derived views

The application tracks three kinds of records:
- **sites**, each linked by id to an insurance group;
- **insurance groups**, each a provider with a policy end date;
- **insurance requests**, which move from Pending to Approved or Denied.

This project models the logic that sits between the forms and the tables, written as pure functions over immutable records and sequences:

- **Expiry and linkage rules** (`Domain`):
  - the whole-day countdown to a policy's end date;
  - the "expiring soon" rule;
  - the lookups from a site to its group and from a group to its sites.
- **The generic table** (`DataTable`):
  - the case-insensitive search over chosen fields;
  - the one-column sort and its header-click state machine;
  - the single "No results found." row shown when nothing is left.
- **The three table controllers** (`GroupTable`, `SiteTable`, `RequestTable`):
  - update by id;
  - create under a fresh id, `max(0, ids) + 1`;
  - delete of sites;
  - delete of groups, refused while any site links to the group;
  - approve and deny of requests, offered only on Pending rows.
- **The three forms** (`SiteForm`, `GroupForm`, `RequestForm`):
  - required-field errors;
  - submission only when no error is left;
  - editing a field clears that field's error and no other;
  - the id a saved record carries;
  - the record a new request is built into.
- **The dashboard** (`Dashboard`):
  - the first five sites expiring soon;
  - the five groups with the latest end dates;
  - the status counts and the expiring percentage.

Supporting modules:
- `Wrappers` holds `Option`.
- `Text` models `toLowerCase`, `includes`, `String(n)`, `parseInt` and `localeCompare`.
- `Seqs` models `filter`, `slice(0, n)` and a stable `sort`.
- `Entities` holds the id-based lookup behind the `Domain` lookups, and the collection updates the group and site tables share.

Modelling choices:
- Dates are integer milliseconds, the value `Date.getTime()` returns.
- "Today" is the application's fixed date, 2025-03-11T00:00:00Z.
- The site, group and request lists are parameters. The source reads them from module-level fixtures instead.
- A row object of the generic table is a `map<string, Value>`. An absent key reads as `undefined`.
- A date value carries its own `String(date)` text, because that text depends on the time zone.

Behaviour worth knowing before reading the contracts:
- **Expiring soon.** `isExpiringSoon` has no lower bound: it tests only `daysUntil <= 30` (src/lib/data.tsx:41-43). So a date already in the past counts as expiring, and 2025-03-01 is expiring on 2025-03-11. `Domain.PastDatesExpire` and `Domain.ExpiryBoundaries` state this.
- **Local updates.** The group and site tables create, update and delete by changing their local arrays directly. The request table only updates statuses, in the same way. Nothing is written back or reloaded.
- **Identifiers.** Ids are integers.

The generic table compares every non-date value as text, ids included (src/components/ui/data-table.tsx:64-70). So an ascending sort on the ID column puts id 10 before id 2. `GroupTable.IdsSortAsText` states this.

## Model

| member | source | states |
|---|---|---|
| Text.Lower | src/components/ui/data-table.tsx:44 | lower-casing keeps the length and lowers each letter A–Z, leaving every other character as it is |
| Text.ContainsIff | src/components/ui/data-table.tsx:44 | `includes` holds exactly when the query occurs as a contiguous block at some position of the text |
| Text.IntToString | src/components/ui/data-table.tsx:44 | `String(n)` of an integer is non-empty and starts with '-' exactly when n is negative |
| Text.NatToString | src/components/ui/data-table.tsx:44 | `String(n)` of a non-negative integer is a non-empty run of digits that starts with 0 only when n is 0 |
| Text.LeadingDigits | src/components/site/SiteForm.tsx:43 | the digit run `parseInt` reads is a prefix of digits followed by a non-digit or the end |
| Text.ParseInt | src/components/site/SiteForm.tsx:43 | `parseInt` yields NaN exactly when no digit follows the optional sign |
| Text.ParseIntOfIntToString | src/components/site/SiteForm.tsx:118-126 | reading back the select box's `String(id)` with `parseInt` returns the id unchanged, negative ids included |
| Text.DigitsValueOfNatToString | src/components/site/SiteForm.tsx:126 | the digits `String(n)` prints have value n |
| Text.LexCompare | src/components/ui/data-table.tsx:68-70 | `localeCompare` returns -1, 0 or 1 |
| Text.LexCompareZeroIff | src/components/ui/data-table.tsx:68-70 | two strings compare as 0 exactly when they are equal |
| Text.LexCompareAntisymmetric | src/components/ui/data-table.tsx:68-70 | swapping the strings negates the comparison |
| Text.LexCompareTransitive | src/components/ui/data-table.tsx:68-70 | the string order is transitive |
| Seqs.Filter | src/components/ui/data-table.tsx:38 | `filter` keeps an order-preserving subsequence holding every passing element and only passing elements |
| Seqs.Map | src/components/dashboard/DashboardStats.tsx:19 | the mapped sequence has the same length and holds f of each element at its position |
| Seqs.FilterLengthIsMultiplicity | src/components/dashboard/DashboardStats.tsx:18-19 | when the filter tests `f(x) == v`, `filter(...).length` is the number of times v occurs among the mapped values |
| Seqs.FilterAll | src/components/ui/data-table.tsx:39 | filtering with a predicate every element meets returns the sequence unchanged |
| Seqs.FilterMultiset | src/lib/data.tsx:153 | filtering keeps each passing element with its full multiplicity and drops every failing one |
| Seqs.Take | src/pages/Index.tsx:19 | `slice(0, n)` is a prefix of length min(n, length) |
| Seqs.PrefixOfSubsequence | src/pages/Index.tsx:14-19 | a prefix of an order-preserving subsequence is still one |
| Seqs.Insert | src/components/ui/data-table.tsx:49 | inserting adds exactly the one element to the multiset |
| Seqs.SortBy | src/components/ui/data-table.tsx:49 | the sort returns a rearrangement: same length, same multiset |
| Seqs.SortBySorted | src/components/ui/data-table.tsx:49-71 | when the comparator is a total preorder on the elements, the output is in comparator order |
| Seqs.SortByNeutral | src/components/ui/data-table.tsx:55 | when the comparator ties every pair, the stable sort keeps the original order |
| Domain.DaysUntil | src/lib/data.tsx:36-39 | the day count is the ceiling: the smallest number of whole days covering the time left, negative once the date has passed |
| Domain.DaysUntilWholeDays | src/lib/data.tsx:36-39 | for a date a whole number of days from today, the count is exactly that number |
| Domain.DaysUntilMonotone | src/lib/data.tsx:36-39 | a later end date never yields fewer days |
| Domain.IsExpiringSoon | src/lib/data.tsx:41-43 | a date is expiring soon exactly when it lies at most 30 days after today, with no lower bound |
| Domain.ExpiringDownwardClosed | src/lib/data.tsx:41-43 | moving an expiring date earlier keeps it expiring |
| Domain.PastDatesExpire | src/lib/data.tsx:41-43 | a date already past has at most 0 days left and counts as expiring |
| Domain.ExpiryBoundaries | src/lib/data.tsx:36-43 | on 2025-03-11: 2025-04-10 is 30 days out and expiring; 2025-04-11 is 31 days out and not expiring; 2025-03-01 is -10 days and expiring |
| Entities.FindById | src/lib/data.tsx:146-149 | `find` by id returns the first entity with the id, or nothing exactly when no entity has it; it serves both the site and the group lookup |
| Domain.GetSiteInsuranceGroup | src/lib/data.tsx:145-150 | nothing when no site has the id; otherwise the first group in the list carrying the first such site's group id, or nothing exactly when that reference dangles |
| Domain.GetInsuranceGroupSites | src/lib/data.tsx:152-154 | exactly the sites referencing the group, each with its full multiplicity, as an order-preserving subsequence |
| Domain.GroupSitesEmptyIff | src/lib/data.tsx:152-154 | a group has no linked sites exactly when no site references its id |
| DataTable.RowMatchesIff | src/components/ui/data-table.tsx:38-46 | with a query and search fields, a row is kept exactly when some search field holds a value whose lower-cased text has the lower-cased query at some position |
| DataTable.FilterRows | src/components/ui/data-table.tsx:38-46 | the identity for an empty query or no search fields; otherwise an order-preserving subsequence whose every row has a field whose lowered text contains the lowered query, and every matching row is kept with its full multiplicity |
| DataTable.MissingNeverMatches | src/components/ui/data-table.tsx:42-43 | a row whose search fields are all null or undefined is dropped by any non-empty search |
| DataTable.FilteredRowsMatch | src/components/ui/data-table.tsx:38-46 | every row the search keeps comes from the data and passes the search |
| DataTable.SortRows | src/components/ui/data-table.tsx:49-71 | the sorted rows are a rearrangement of the filtered rows, in the original order when no sort column is set |
| DataTable.SortRowsOrdered | src/components/ui/data-table.tsx:49-71 | on a column holding dates in all rows or in none, the output is in comparator order |
| DataTable.CompareDatesByTime | src/components/ui/data-table.tsx:58-62 | two dates compare by time: ascending puts the earlier first, descending the later, and equal times tie |
| DataTable.DescendingSwapsAscending | src/components/ui/data-table.tsx:58-70 | the descending comparison of a and b is the ascending comparison of b and a, for dates and text alike |
| DataTable.CompareValuesAntisymmetric | src/components/ui/data-table.tsx:55-70 | swapping the values negates the comparison, and equal values compare as 0 |
| DataTable.CompareValuesByText | src/components/ui/data-table.tsx:64-70 | unless both values are dates, the comparison is the text order of `String(v \|\| "")`, consistently with the equality shortcut |
| DataTable.CompareValuesTransitive | src/components/ui/data-table.tsx:55-70 | among all-date or all-non-date values the comparison is transitive |
| DataTable.UniformColumnPreorder | src/components/ui/data-table.tsx:49-71 | on a column holding dates in all rows or in none, the row comparator is a total preorder |
| DataTable.Flip | src/components/ui/data-table.tsx:77 | flipping always changes the direction |
| DataTable.HandleSort | src/components/ui/data-table.tsx:73-82 | no change for a computed or non-sortable column; a click on the active column flips the direction; a click on another column makes it active, ascending |
| DataTable.HandleSortTwiceRestores | src/components/ui/data-table.tsx:76-77 | two clicks on the active column restore the sort state |
| DataTable.HandleSortNewColumn | src/components/ui/data-table.tsx:78-81 | on a new column, the first click sorts ascending and the second descending |
| DataTable.HandleSortKeepsValid | src/components/ui/data-table.tsx:73-82 | clicks on the table's headers keep the sort column unset or equal to one of its sortable keys |
| DataTable.SortIndicator | src/components/ui/data-table.tsx:110-112 | the arrow shows exactly on a sortable key column that is the sort column, pointing in the current direction |
| DataTable.AtMostOneIndicator | src/components/ui/data-table.tsx:110 | two headers show an arrow at once only when they sort the same key |
| DataTable.Body | src/components/ui/data-table.tsx:119-146 | an empty result renders exactly one "no results" row spanning every column; otherwise one row per result, in order |
| DataTable.ViewShowsMatchingRows | src/components/ui/data-table.tsx:37-71 | every data row the table shows is a row of the input that passes the search |
| Entities.MaxId | src/components/insurance/InsuranceGroupTable.tsx:31 | `Math.max(0, ...ids)` is at least 0 and at least every id, and is 0 or one of the ids |
| Entities.NextId | src/components/insurance/InsuranceGroupTable.tsx:31 | the new id is strictly above every existing id, and is either 1 or one more than an existing id: exactly `max(0, ids) + 1` |
| Entities.ReplaceById | src/components/insurance/InsuranceGroupTable.tsx:28 | same length; positions with the id hold the new entity; every other position is unchanged |
| Entities.ReplaceUnknownId | src/components/insurance/InsuranceGroupTable.tsx:28 | replacing by an id nobody has changes nothing |
| Entities.ReplaceIdempotent | src/components/insurance/InsuranceGroupTable.tsx:28 | replacing twice with the same entity equals replacing once |
| Entities.RemoveById | src/components/insurance/InsuranceGroupTable.tsx:46 | an order-preserving subsequence with no entity of that id that keeps every other entity |
| Entities.RemoveByIdMultiset | src/components/insurance/InsuranceGroupTable.tsx:46 | removal drops all copies of entities with the id and keeps every other entity's multiplicity |
| Entities.RemoveUnknownId | src/components/site/SiteTable.tsx:30 | removing an id nobody has changes nothing |
| GroupTable.HandleSave | src/components/insurance/InsuranceGroupTable.tsx:25-35 | in edit mode, matching groups are replaced and the length and all other groups are kept; in create mode, the old list stays a prefix and one group is appended with the form's fields under the id `max(0, ids) + 1`; the edit selection is cleared |
| GroupTable.CreateKeepsIdsDistinct | src/components/insurance/InsuranceGroupTable.tsx:29-32 | creating a group keeps ids pairwise distinct |
| GroupTable.HandleDelete | src/components/insurance/InsuranceGroupTable.tsx:37-48 | refused with the groups unchanged and an alert carrying the linked count while any site references the group; otherwise exactly the groups with that id are removed, every other group keeping its multiplicity and order; the delete dialog closes either way |
| GroupTable.RefusalMessageNamesCount | src/components/insurance/InsuranceGroupTable.tsx:41 | the refusal alert names the linked-site count: different counts give different messages |
| GroupTable.RefusedDeleteIsNoOp | src/components/insurance/InsuranceGroupTable.tsx:39-44 | a refused delete only closes the dialog, and repeating it changes nothing further |
| GroupTable.DeletedGroupNotFound | src/components/insurance/InsuranceGroupTable.tsx:46 | after a delete that went ahead, no group with the id can be found |
| GroupTable.ExpiryBadge | src/components/insurance/InsuranceGroupTable.tsx:64-77 | the badge is red exactly when the end date is expiring soon |
| GroupTable.ExpiredLabelIff | src/components/insurance/InsuranceGroupTable.tsx:71-76 | the badge reads "Expired" exactly when no days are left; with days left it reads "N days left" |
| GroupTable.IdsSortAsText | src/components/ui/data-table.tsx:64-70 | ascending on the ID column puts the group with id 10 before the group with id 2 |
| SiteTable.HandleSave | src/components/site/SiteTable.tsx:17-27 | in edit mode, matching sites are replaced and the length and all other sites are kept; in create mode, the old list stays a prefix and the site is appended with only its id changed, to `max(0, ids) + 1`; the edit selection is cleared |
| SiteTable.HandleDelete | src/components/site/SiteTable.tsx:29-32 | always removes exactly the sites with the id, keeping every other site with its multiplicity and in order, and closes the delete dialog |
| SiteTable.DeletedSiteNotFound | src/components/site/SiteTable.tsx:29-32 | after a delete, no site with the id can be found |
| SiteTable.DeleteIdempotent | src/components/site/SiteTable.tsx:29-32 | deleting the same id twice equals deleting it once |
| SiteTable.ProviderCell | src/components/site/SiteTable.tsx:46-50 | a dash when the site's group does not resolve; otherwise the provider of the group the site resolves to |
| SiteTable.EndDateCellOf | src/components/site/SiteTable.tsx:54-70 | a dash exactly when the site's group does not resolve; otherwise the resolved group's end date, with the badge exactly when it is expiring soon |
| SiteTable.DanglingReferenceShowsDash | src/components/site/SiteTable.tsx:46-57 | a site whose group id matches no group shows dashes in both cells |
| SiteTable.SearchIgnoresCase | src/components/ui/data-table.tsx:38-46 | the query "down" finds the site named "Downtown Warehouse" |
| SiteTable.ProviderHeaderDoesNotSort | src/components/site/SiteTable.tsx:45-51 | the provider header is marked sortable but its accessor is a function, so clicking it leaves the sort unchanged |
| SiteTable.NameSortToggles | src/components/ui/data-table.tsx:73-82 | rows named B and A sort to A, B on the first click on Site Name and to B, A on the second |
| RequestTable.SetStatus | src/components/requests/RequestTable.tsx:24 | same length; rows with the id take the new status with every other field kept; other rows are unchanged |
| RequestTable.HandleApprove | src/components/requests/RequestTable.tsx:22-28 | the rows with the request's id become Approved and nothing else in them or in other rows changes; the approval dialog closes |
| RequestTable.HandleDeny | src/components/requests/RequestTable.tsx:30-37 | the rows with the request's id become Denied with nothing else changed; the typed reason is cleared, not stored; the denial dialog closes |
| RequestTable.ApproveIdempotent | src/components/requests/RequestTable.tsx:22-25 | approving the same request twice leaves the list as approving it once |
| RequestTable.DenyIdempotent | src/components/requests/RequestTable.tsx:30-33 | denying the same request twice leaves the list as denying it once |
| RequestTable.ActionsOnlyWhilePending | src/components/requests/RequestTable.tsx:122 | the Approve and Deny buttons are offered exactly on rows whose status is Pending |
| RequestTable.ClickApprove | src/components/requests/RequestTable.tsx:122-131 | the Approve button exists exactly on Pending rows; clicking it selects the row and opens the dialog |
| RequestTable.ClickDeny | src/components/requests/RequestTable.tsx:137-144 | the Deny button exists exactly on Pending rows; clicking it selects the row and opens the dialog |
| RequestTable.ConfirmApprove | src/components/requests/RequestTable.tsx:223 | with no selected request, confirming does nothing; otherwise it approves the selected request |
| RequestTable.ConfirmDeny | src/components/requests/RequestTable.tsx:262 | with no selected request, confirming does nothing; otherwise it denies the selected request |
| RequestTable.ApproveFlowFromPending | src/components/requests/RequestTable.tsx:122-131 | with distinct ids, clicking Approve on a Pending row and confirming makes exactly that row Approved, and it then offers no buttons |
| RequestTable.DenyFlowFromPending | src/components/requests/RequestTable.tsx:137-144 | with distinct ids, clicking Deny on a Pending row and confirming keeps the length and makes exactly that row Denied, and it then offers no buttons |
| RequestTable.DecidedRowsAreTerminal | src/components/requests/RequestTable.tsx:122 | Approved and Denied rows offer neither button, so the interface cannot move them again |
| RequestTable.SearchFindsSpecialType | src/components/requests/RequestTable.tsx:189 | the type column is searched, so the query "special" finds every Special request whatever its case |
| SiteForm.Init | src/components/site/SiteForm.tsx:16-32 | with no errors shown, the form holds the defaults ("", "", 0) in create mode and the edited site's fields in edit mode |
| SiteForm.HandleChange | src/components/site/SiteForm.tsx:34-40 | the typed text goes to its field alone, and only that field's error is cleared |
| SiteForm.HandleSelectChange | src/components/site/SiteForm.tsx:42-47 | only the group id changes, and only the group error is cleared |
| SiteForm.SelectGroupStoresItsId | src/components/site/SiteForm.tsx:42-47 | picking a group's option stores exactly that group's id |
| SiteForm.Validate | src/components/site/SiteForm.tsx:49-58 | the name error is set exactly when the name is empty; the address error exactly when the address is empty; the group error exactly when the group id is 0 |
| SiteForm.HandleSubmit | src/components/site/SiteForm.tsx:60-85 | a site is saved exactly when all three fields are filled, with the edited site's id or 0, and the form then resets to defaults with no errors; otherwise nothing is saved and the errors are shown |
| SiteForm.EditRoundTrip | src/components/site/SiteForm.tsx:60-70 | submitting an untouched edit form of a complete site saves that same site |
| SiteForm.FixingNameKeepsOtherErrors | src/components/site/SiteForm.tsx:34-40 | after a refused submit, editing the name clears the name error and keeps the other two |
| GroupForm.Init | src/components/insurance/InsuranceGroupForm.tsx:18-32 | with no errors shown and an end date always present, the form holds an empty provider and the current time in create mode and the edited group's fields in edit mode |
| GroupForm.HandleProviderChange | src/components/insurance/InsuranceGroupForm.tsx:34-41 | the provider alone changes, and only the provider error is cleared |
| GroupForm.HandleDateChange | src/components/insurance/InsuranceGroupForm.tsx:43-51 | an empty pick changes nothing; a date is stored and clears only the date error |
| GroupForm.Validate | src/components/insurance/InsuranceGroupForm.tsx:53-61 | the provider error is set exactly when the provider is empty; the date error exactly when the date is absent |
| GroupForm.HandleSubmit | src/components/insurance/InsuranceGroupForm.tsx:63-73 | a group is saved exactly when the provider and date are present, with the edited group's id or 0 and the form's fields; the form data is kept |
| GroupForm.EndDateAlwaysPresent | src/components/insurance/InsuranceGroupForm.tsx:18-51 | no operation removes the end date, so the end-date error never appears |
| GroupForm.EditRoundTrip | src/components/insurance/InsuranceGroupForm.tsx:63-73 | submitting an untouched edit form of a group with a provider saves that same group |
| RequestForm.HandleChange | src/components/requests/RequestForm.tsx:41-48 | the typed text goes to its field alone; only that field's error is cleared; editing special details clears no error |
| RequestForm.HandleRadioChange | src/components/requests/RequestForm.tsx:50-56 | only the type changes, and only the type error is cleared |
| RequestForm.SpecialDetailsFollowRadio | src/components/requests/RequestForm.tsx:172 | the Special Details field is hidden on the initial form, shown exactly after choosing Special, and unaffected by typing |
| RequestForm.Validate | src/components/requests/RequestForm.tsx:58-67 | the site-name and address errors are set exactly when those fields are empty; the type error is never set |
| RequestForm.DetailsNeverValidated | src/components/requests/RequestForm.tsx:58-64 | changing the special details never changes whether the form is valid |
| RequestForm.NonEmpty | src/components/requests/RequestForm.tsx:81 | `x \|\| null` on text is null exactly when the text is absent or empty, and otherwise the text itself |
| RequestForm.BuildRequest | src/components/requests/RequestForm.tsx:77-85 | the record is Pending and stamped with the given time; site name, address and type map to their columns; the details and user id become null exactly when absent or empty, and otherwise carry the given text |
| RequestForm.HandleSubmit | src/components/requests/RequestForm.tsx:69-85 | a record is produced exactly when site name and address are filled, and it is the built request; the errors are shown either way |
| RequestForm.NormalWithoutDetailsSubmits | src/components/requests/RequestForm.tsx:25-29 | starting from the initial Normal form, filling in name and address is enough to submit, with null details |
| Dashboard.ExpiringSites | src/pages/Index.tsx:14-19 | at most five sites, an order-preserving subsequence, each with a resolvable expiring group; a prefix of all qualifying sites, and all of them when fewer than five |
| Dashboard.ExpiringSiteHasExpiringGroup | src/pages/Index.tsx:14-18 | each listed site's group resolves, is in the group list, and ends at most 30 days from today |
| Dashboard.RecentGroups | src/pages/Index.tsx:21-23 | min(5, n) groups, latest end date first, drawn from the collection, and no group left out ends later than the last one shown |
| Dashboard.RecentGroupsOrdered | src/pages/Index.tsx:21-23 | the kept groups are in non-increasing end-date order |
| Dashboard.RecentGroupsDrawn | src/pages/Index.tsx:21-23 | the kept groups form a sub-multiset of the collection |
| Dashboard.RecentGroupsNothingLaterLeft | src/pages/Index.tsx:21-23 | no group left out ends later than the last group kept |
| Dashboard.LaterFirstIsPreorder | src/pages/Index.tsx:22 | the end-date comparator is a total preorder on any groups |
| Dashboard.CutOffEndsNoLater | src/pages/Index.tsx:23 | in a list sorted latest first, nothing after the cut ends later than the last element kept |
| Dashboard.CountStatus | src/components/dashboard/DashboardStats.tsx:19 | a status count is the number of requests with that status, so never above the number of requests |
| Dashboard.StatusCountsCoverAll | src/components/dashboard/DashboardStats.tsx:19-76 | the pending, approved and denied counts add up to the number of requests |
| Dashboard.RoundPercent | src/components/dashboard/DashboardStats.tsx:22 | the percentage is the integer nearest to 100·part/total, with halves rounded up, and lies in [0, 100] when part ≤ total |
| Dashboard.ComputeStats | src/components/dashboard/DashboardStats.tsx:14-22 | the totals are the list lengths; the expiring count is the number of groups expiring soon; each status card counts the requests with that status, and the three add up to the request total; the percentage exists exactly when there are groups, is the rounded share of expiring groups, and lies in [0, 100] |

## Left out

- Persistence calls are not modelled: the Supabase insert in the request form, and the toast, alert and console calls. The model returns the record to insert, and the alert text on a refused group delete.
- The request form's reset is not modelled. It runs in a `setTimeout` two seconds after a successful insert. The `isSubmitting` and `isSuccess` flags are not modelled either.
- `formatDate` and `String(date)` depend on the time zone and the date-fns library. A date value therefore carries its rendered text as data.
- Floating-point detail is not modelled:
  - `getDaysUntil` takes `Math.ceil` of a float quotient; the model uses exact integer ceiling division. The two agree as long as the quotient keeps its integer part exactly, which holds for any real date.
  - `Math.round` in the percentage is modelled on exact rationals, so the result can differ at a half that the float product cannot represent exactly.
  - The percentage with no groups (NaN) is modelled as an absent value.
- Text handling is simplified:
  - `toLowerCase` lowers only the ASCII letters A–Z.
  - `localeCompare` is plain code-point order, not locale collation.
  - `parseInt` handles an optional sign and decimal digits, without leading whitespace or a `0x` prefix.
- DataTable.SortRowsOrdered: ordering is proved only for columns that hold dates in every row or in none. When dates are mixed with other values, the source's comparator is not transitive, and the model claims only that the output is a rearrangement.
- SiteForm.HandleSelectChange: a NaN from `parseInt` is stored as 0. The form only ever tests the id's truthiness, and NaN and 0 are both falsy, so the form behaves the same.
- Rendering and presentation are not modelled:
  - JSX, the dialogs' open/close animation, badge styling and framer-motion;
  - the NavBar scroll and menu state;
  - cell text for plain key columns, and the row-click callback;
  - in the request table, the special-details dialog and cell, the status badge and the CSV export dialog;
  - in the group table, the linked-sites dialog and its count.
- Routing, `ProtectedRoute`, the auth page and the page shells only compose components, so they are not modelled.
- The module-level fixtures are not modelled as global state; the lists are parameters instead. Note that the group delete check and the site-to-group lookup in the source read the fixed fixture site list, not the table's live list.
- The forms' seeding effect is modelled as the initial state (`Init`). Re-seeding when the edited record changes while the form stays mounted is not modelled.
