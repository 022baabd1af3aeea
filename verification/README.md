# Cloud server inventory — a Dafny model of its core

The system keeps an inventory of cloud servers. Each server is a row of one
`servers` table: name, IPv4 address, provider, status, CPU cores, RAM, storage
and an optimistic-locking `version`. A Laravel JSON API lists, creates, updates
and deletes rows. A React client shows them in a filterable, sortable, paged
table, with a form to create new servers.

This project models the core of both halves as pure Dafny functions over
immutable data and proves what the code promises:

- **Table** (`schema.dfy`). The columns, with their integer widths as subset
  types, the enum columns and their defaults, and the two unique indexes
  (`ip_address`, and `(provider, name)`). `INSERT` and `UPDATE` are refused by
  those indexes.
- **Model** (`server_model.dfy`). The fillable attributes, and what
  `$server->update($data)` does to a row.
- **Validation** (`validation.dfy`). The rule tables of `StoreServerRequest` and
  `UpdateServerRequest`, interpreted rule by rule. A present string that is
  empty once trimmed is checked against `required` only, the one implicit
  rule in the tables; every other rule is skipped for it. Each table is proved
  equal to a field-by-field statement, and each request is decoded into typed
  data, blank text kept as such.
- **Write endpoints** (`controller.dfy`): `store`, `update`, `destroy` and
  `bulkDelete`.
  - `update` includes the version check and the version increment.
  - Each operation returns the table after the request and the response.
  - Each is proved to keep the table invariant: the unique indexes and the
    validated bounds.
- **Listing** (`listing.dfy`, `ordering.dfy`, `numerals.dfy`). `index` is
  modelled in full:
  - PHP truthiness of the filter parameters, and the `(int)` cast of
    `min_cpu`, `max_cpu` and `per_page`, saturating at the 64-bit range;
  - the `%q%` search on name or address;
  - the whitelisted sort column and the sort direction;
  - the clamped page size and the paginator's page slice.
- **List page** (`index_page.dfy`, `pagination.dfy`). The handlers of the list
  page:
  - `handleFilterChange`, `resetFilters` and `changeSort`;
  - `toggleSelect` and `toggleSelectAll`;
  - `getPaginationRange`, the list of page buttons.
- **Create form** (`create_form.dfy`). The form's defaults, and
  `handleNumberChange`, which reads a number input with `parseInt`.

Clocks, the framework's IPv4 check and the database are parameters or state:

- a `now: nat` argument supplies the timestamps;
- an `isIpv4: string -> bool` argument supplies `filter_var(..., FILTER_VALIDATE_IP, FILTER_FLAG_IPV4)`;
- the table is a `Db` value (rows by id plus the auto-increment counter).

Some behaviour of the code is easy to miss:

- **`per_page=abc` gives a page size of 1.** `(int)"abc"` is 0, and the clamp
  raises it to 1 (`Listing.PerPage`).
- **Rows with equal sort keys have no fixed order.** The query orders by the
  one requested column, and each page request sorts afresh. Only when no two
  matching rows tie, as with `id` and `ip_address`, is every row served on
  exactly one page (`Listing.IndexOfPage`, `Listing.EveryMatchOnSomePage`).
- **A bulk delete with an unknown id is refused whole.** The unknown ids are
  reported and nothing is deleted (`Controller.BulkDelete`).
- **An empty listing has `last_page` 1.** The paginator never reports fewer
  than one page (`Listing.LastPage`).
- **An update without `version` is written without a version check.**
  (`Controller.ApplyUpdate`)
- **Blank text passes every rule but `required`.** `PUT {"ip_address": ""}`
  writes an empty address (`Controller.BlankAddressWritten`). A blank `status`
  on create passes validation and is refused by the enum column
  (`Controller.Create`). A blank `version` casts to 0 and is a version
  mismatch (`Controller.BlankVersionMismatches`).

## Model

| member | source | states |
|---|---|---|
| Schema.ParseProvider | cloud-server-backend/database/migrations/2025_09_08_154436_create_servers_table.php:18 | the provider enum column accepts exactly the four declared names and reads each back as the provider it names |
| Schema.ParseStatus | cloud-server-backend/database/migrations/2025_09_08_154436_create_servers_table.php:19 | the status enum column accepts exactly the three declared names and reads each back as the status it names |
| Schema.Insert | cloud-server-backend/database/migrations/2025_09_08_154436_create_servers_table.php:15-27 | an insert is refused exactly when the address or the (provider, name) pair is already used; otherwise the row gets a fresh id of at least 1, nothing else changes, and both unique indexes still hold |
| Schema.Write | cloud-server-backend/database/migrations/2025_09_08_154436_create_servers_table.php:26-27 | an update of one row is refused exactly when another row already has its new address or (provider, name) pair; otherwise only that row changes and both unique indexes still hold |
| Schema.ColumnText | cloud-server-backend/database/migrations/2025_09_08_154436_create_servers_table.php:16-17 | text within the column width is stored as is; longer text is stored cut to the width exactly when everything past the width is spaces, and refused otherwise |
| ServerModel.Fill | cloud-server-backend/app/Models/Server.php:12-21 | filling a row writes each supplied fillable attribute and keeps every other one; the id and the creation time never change, `version` gets the computed value and `updated_at` the clock |
| ServerModel.FillEmpty | cloud-server-backend/app/Http/Controllers/Api/ServerController.php:106-113 | an update with no attributes only advances the version and touches `updated_at` |
| Numerals.PhpIntCast | cloud-server-backend/app/Http/Controllers/Api/ServerController.php:27-28 | the result always lies in the 64-bit range, and a parameter that does not start (after whitespace) with a digit or a sign casts to 0 |
| Numerals.PhpCastDecimal | cloud-server-backend/app/Http/Controllers/Api/ServerController.php:27-28 | the `(int)` cast reads back the decimal numeral of every 64-bit integer as that integer; a larger numeral saturates to the nearer end of the range, and one too large for a double casts to 0 |
| Numerals.BlankCastsToZero | cloud-server-backend/app/Http/Controllers/Api/ServerController.php:96-97 | text that is empty once trimmed casts to 0 |
| Numerals.JsParseInt | cloud-server-frontend/src/components/server/Create.jsx:37 | text that does not start (after whitespace) with a digit or a sign parses to NaN |
| Numerals.ParseDecimal | cloud-server-frontend/src/components/server/Create.jsx:37 | `parseInt` reads back the decimal rendering of every integer as that integer |
| Validation.ValidatedAt | cloud-server-backend/app/Http/Controllers/Api/ServerController.php:59 | `validated()` holds an attribute exactly when it has a rule and is present, with the value the request sent |
| Validation.FieldOkIff | cloud-server-backend/app/Http/Requests/StoreServerRequest.php:17-25 | for both requests, the rules of one attribute pass exactly when the field-by-field statement holds: an absent or blank attribute passes exactly when it is not required; any other one has the right type (an integer within the 64-bit range for `integer`), the length, range or enum bound, and an address no other row uses |
| Validation.AcceptedIff | cloud-server-backend/app/Http/Requests/UpdateServerRequest.php:21-30 | a request has no failed attribute exactly when every attribute meets its field-by-field statement |
| Validation.ValidateStore | cloud-server-backend/app/Http/Requests/StoreServerRequest.php:17-25 | a passing create request decodes to attributes that obey every rule (a non-blank name and unused ipv4 address within their lengths, enum names, sizes in range), with a `status` that is absent, an enum name, or blank text; a failing one names at least one attribute, and every named attribute really fails |
| Validation.StoreAccepts | cloud-server-backend/app/Http/Requests/StoreServerRequest.php:17-25 | conversely, every create request that obeys the rules, a blank `status` included, is accepted with exactly its own attributes |
| Validation.StoreDecodeUnique | cloud-server-backend/app/Http/Requests/StoreServerRequest.php:17-25 | a create request describes at most one set of decoded attributes |
| Validation.StoreIgnoresVersion | cloud-server-backend/app/Http/Requests/StoreServerRequest.php:17-25 | `version` has no create rule, so whatever a client sends under that key does not change the result of validation |
| Validation.ValidateUpdate | cloud-server-backend/app/Http/Requests/UpdateServerRequest.php:20-30 | a passing update request decodes to changes holding exactly the present attributes, each either blank text or obeying its rule (an address no other row uses, a version that is an integer within the 64-bit range); a failing one names only attributes that really fail |
| Validation.UpdateAccepts | cloud-server-backend/app/Http/Requests/UpdateServerRequest.php:21-30 | conversely, every update request whose present attributes are blank or obey the rules, a `version` within the 64-bit range included, is accepted with exactly those attributes |
| Validation.UpdateDecodeUnique | cloud-server-backend/app/Http/Requests/UpdateServerRequest.php:21-30 | an update request describes at most one patch and version |
| Validation.UpdateInputOfOwnRow | cloud-server-backend/app/Http/Requests/UpdateServerRequest.php:23 | the uniqueness rule ignores the row being updated, so whether an update passes does not depend on that row's own stored values |
| Validation.RulesOnlyCoverFillable | cloud-server-backend/app/Models/Server.php:12-21 | every attribute either request validates is fillable, so mass assignment writes all validated data |
| Validation.BoundsFitColumns | cloud-server-backend/database/migrations/2025_09_08_154436_create_servers_table.php:16-23 | the validated maximum lengths and ranges fit the string lengths and unsigned widths of the columns |
| Controller.Created | cloud-server-backend/database/migrations/2025_09_08_154436_create_servers_table.php:18-23 | a created row has version 1, status `inactive` when none was sent, the validated attributes, and both timestamps set to the clock |
| Controller.Create | cloud-server-backend/app/Http/Controllers/Api/ServerController.php:58-87 | `store` fails validation exactly when the request does, and then changes nothing; a validated blank `status` is refused by the enum column, and a duplicate (provider, name) by the unique index, both without change; otherwise one row is added under a fresh id; the table invariant and every version are kept |
| Controller.CreatedWithinRules | cloud-server-backend/database/migrations/2025_09_08_154436_create_servers_table.php:16-23 | a row created from a passing create request with a non-blank `status` lies within the validated bounds |
| Controller.FillWithinRules | cloud-server-backend/app/Http/Controllers/Api/ServerController.php:112 | writing validated changes that the columns accept keeps a row within the validated bounds, a blank name cut by its column included |
| Controller.ApplyUpdate | cloud-server-backend/app/Http/Controllers/Api/ServerController.php:93-123 | a sent version whose integer cast differs from the stored one is a mismatch, and nothing changes; otherwise the column check refuses a version already at the 32-bit maximum, blank text for an enum or integer column, and non-blank text wider than its column; otherwise the row gets the changes and version + 1, unless a unique index refuses the write |
| Controller.Update | cloud-server-backend/app/Http/Controllers/Api/ServerController.php:93-127 | an unknown id is not found; a request that fails validation changes nothing and reports the failing attributes; a valid one is applied as above; any error leaves the table unchanged, and a success changes only the targeted row, whose new value is the response |
| Controller.WideVersionRefused | cloud-server-backend/app/Http/Requests/UpdateServerRequest.php:29 | a `version` beyond the 64-bit range fails `integer`, so the update is refused by validation naming only `version`, and nothing changes |
| Controller.BlankAddressWritten | cloud-server-backend/app/Http/Requests/UpdateServerRequest.php:23 | an update sending only an empty `ip_address` passes validation and writes the empty address, whenever no other row holds it |
| Controller.BlankVersionMismatches | cloud-server-backend/app/Http/Controllers/Api/ServerController.php:96-103 | a blank `version` that passes validation is cast to 0, which no stored row holds, so the update is a mismatch and changes nothing |
| Controller.UpdateKeepsInvariant | cloud-server-backend/app/Http/Controllers/Api/ServerController.php:105-114 | every update keeps the table invariant and never lowers a version |
| Controller.ApplyKeepsInvariant | cloud-server-backend/app/Http/Controllers/Api/ServerController.php:106-113 | writing a validated patch with the incremented version keeps both unique indexes and every row within the validated bounds, and lowers no version |
| Controller.ResourceAccepted | cloud-server-frontend/src/components/server/Edit.jsx:43-45 | the record the edit form loads, sent back unchanged, passes update validation and decodes to the whole record with its version |
| Controller.ResourceApplies | cloud-server-backend/app/Http/Controllers/Api/ServerController.php:106-113 | writing a row's own record back over it only advances the version and touches `updated_at` |
| Controller.ResubmitSucceeds | cloud-server-frontend/src/components/server/Edit.jsx:64-66 | saving the edit form unchanged succeeds whenever the version has room to grow and the stored address passes the ipv4 check |
| Controller.StaleVersionRejected | cloud-server-backend/app/Http/Controllers/Api/ServerController.php:96-103 | once an update that named a version has gone through, replaying the same request is a version mismatch and leaves the table unchanged |
| Controller.Destroy | cloud-server-backend/app/Http/Controllers/Api/ServerController.php:129-143 | deleting is not found exactly when the id has no row, and then nothing changes; otherwise exactly that row is removed and the invariant is kept |
| Controller.MissingFrom | cloud-server-backend/app/Http/Controllers/Api/ServerController.php:170-171 | the ids reported as missing are exactly the requested ids without a row, and there are none exactly when every requested id has a row |
| Controller.BulkDelete | cloud-server-backend/app/Http/Controllers/Api/ServerController.php:159-186 | no ids is a bad request; any unknown id refuses the whole batch and names the unknown ids; a non-empty batch of known ids succeeds; on success exactly the requested rows are removed, the count is the number of distinct ids and the rows removed, and the invariant is kept |
| Ordering.SortBy | cloud-server-backend/app/Http/Controllers/Api/ServerController.php:34 | the sorted rows are a permutation of the input, in the order of the column and direction |
| Ordering.SortedUnique | cloud-server-backend/app/Http/Controllers/Api/ServerController.php:34 | two sorted arrangements of the same rows are equal when no two of the rows tie on the sort column |
| Listing.ContainsIff | cloud-server-backend/app/Http/Controllers/Api/ServerController.php:20-23 | the `%q%` search matches exactly when the text occurs at some position |
| Listing.SortColumn | cloud-server-backend/app/Http/Controllers/Api/ServerController.php:29-32 | a whitelisted `sort` names the column used; an absent or unknown one falls back to `id` |
| Listing.SortDirection | cloud-server-backend/app/Http/Controllers/Api/ServerController.php:30-33 | the order is ascending exactly when `order`, lower-cased, is `asc` |
| Listing.PerPage | cloud-server-backend/app/Http/Controllers/Api/ServerController.php:35-36 | the page size is 15 when absent, otherwise the cast value clamped to [1, 100] |
| Listing.CurrentPage | cloud-server-backend/app/Http/Controllers/Api/ServerController.php:37 | the page served is the requested one when it is at least 1, otherwise the first |
| Listing.Listed | cloud-server-backend/app/Http/Controllers/Api/ServerController.php:18-34 | the listing holds exactly the stored rows that pass every truthy filter, once each, sorted by the requested column and direction |
| Listing.LastPage | cloud-server-backend/app/Http/Controllers/Api/ServerController.php:37 | the last page is 1 for an empty listing and otherwise the smallest page count that holds all matching rows: every page before it is full |
| Listing.LastPageSmallest | cloud-server-backend/app/Http/Controllers/Api/ServerController.php:37 | no page count of at least one that holds every matching row is smaller than the last page |
| Listing.Paginate | cloud-server-backend/app/Http/Controllers/Api/ServerController.php:37 | a page is the run of the listing after the earlier pages' rows; pages before the last are full, the last holds the remainder, pages past it are empty |
| Listing.Index | cloud-server-backend/app/Http/Controllers/Api/ServerController.php:16-37 | `total` counts every matching row, the page size is within [1, 100], and the page holds at most that many rows |
| Listing.IndexSlice | cloud-server-backend/app/Http/Controllers/Api/ServerController.php:37 | the page served is the slice of the sorted listing at its offset; earlier pages are full, later ones empty |
| Listing.IndexItems | cloud-server-backend/app/Http/Controllers/Api/ServerController.php:18-34 | every row served is a stored row that passes every filter, and the page is in the requested order |
| Listing.EveryMatchOnSomePage | cloud-server-backend/app/Http/Controllers/Api/ServerController.php:37 | when no two matching rows tie on the sort column, every matching row is served on some page, whatever order the database returns on each page request |
| Listing.IndexOfPage | cloud-server-backend/app/Http/Controllers/Api/ServerController.php:37 | when no two matching rows tie on the sort column, any order the database may return is the listing, so the page parameter only chooses which page of that one listing is served |
| Listing.OnlyOrder | cloud-server-backend/app/Http/Controllers/Api/ServerController.php:34 | without ties, the only order the database can return for a query is the listing |
| Listing.DistinctKeyColumns | cloud-server-backend/database/migrations/2025_09_08_154436_create_servers_table.php:27 | sorting by `id`, or by `ip_address` while addresses are unique, never ties two matching rows |
| Listing.SameIndex | cloud-server-backend/app/Http/Controllers/Api/ServerController.php:18-36 | two queries with the same filters, column, direction, size and page get the same page of the model's listing; when no two matching rows tie, the database serves them the same page whatever order it returns for each |
| Listing.UnknownSortIsId | cloud-server-backend/app/Http/Controllers/Api/ServerController.php:29-32 | an unknown or absent `sort` lists exactly what `sort=id` lists, and since ids never tie the database serves all three the same page |
| Listing.FalsyFiltersIgnored | cloud-server-backend/app/Http/Controllers/Api/ServerController.php:19-28 | a filter parameter that is `""` or `"0"` constrains nothing: the model's page is the one served without it, and so is the database's when no two matching rows tie |
| Listing.NonNumericMaxCpuListsNothing | cloud-server-backend/app/Http/Controllers/Api/ServerController.php:28 | a truthy `max_cpu` that does not start like a number casts to 0, so on a valid table nothing is listed |
| Pagination.KeptFrom | cloud-server-frontend/src/components/server/Index.jsx:136-140 | the first loop yields, in ascending order, exactly page 1, the last page and the pages within two of the current one |
| Pagination.Chunk | cloud-server-frontend/src/components/server/Index.jsx:144-151 | each step emits its page, preceded by the single page in between when the gap is two, or by `"..."` when it is wider |
| Pagination.WithGaps | cloud-server-frontend/src/components/server/Index.jsx:142-153 | the second loop's output is empty exactly when there are no kept pages, and starts and ends with the first and last kept page |
| Pagination.WithGapsMembers | cloud-server-frontend/src/components/server/Index.jsx:143-153 | every kept page has a button |
| Pagination.PaginationRange | cloud-server-frontend/src/components/server/Index.jsx:131-156 | with at least one page the buttons run from page 1 to the last page and include every kept page; with none the list is empty |
| Pagination.ShownPagesKeptOrFiller | cloud-server-frontend/src/components/server/Index.jsx:136-153 | every page button lies in [1, last] and is a kept page, or the single page between two kept pages |
| Pagination.DotsBridged | cloud-server-frontend/src/components/server/Index.jsx:143-153 | a `"..."` is never first or last and stands between two pages more than two apart; neighbouring page buttons are consecutive pages |
| Pagination.Ascending | cloud-server-frontend/src/components/server/Index.jsx:131-156 | the page numbers are strictly ascending, so no page has two buttons |
| IndexPage.SetFilter | cloud-server-frontend/src/components/server/Index.jsx:78 | the changed filter takes the new value and every other filter keeps its own |
| IndexPage.DecimalBelowZero | cloud-server-frontend/src/components/server/Index.jsx:77 | the `value < 0` guard is true of an integer's text exactly when the integer is negative |
| IndexPage.HandleFilterChange | cloud-server-frontend/src/components/server/Index.jsx:75-80 | a negative CPU bound leaves the page state unchanged; any other change sets that one filter, goes back to page 1 and changes nothing else |
| IndexPage.ResetFilters | cloud-server-frontend/src/components/server/Index.jsx:82-85 | every filter is emptied, the page goes back to 1, and nothing else changes |
| IndexPage.CpuBoundsStaySane | cloud-server-frontend/src/components/server/Index.jsx:75-85 | a negative CPU bound is absent at the start and neither handler ever lets one into the state |
| IndexPage.CpuBoundNotNegative | cloud-server-frontend/src/components/server/Index.jsx:77 | so a CPU bound the page holds as an integer reaches the server as a non-negative bound |
| IndexPage.ResetListsEverything | cloud-server-frontend/src/components/server/Index.jsx:82-85 | after a reset the request filters nothing and the listing counts every stored row |
| IndexPage.ChangeSort | cloud-server-frontend/src/components/server/Index.jsx:87-94 | clicking the current column flips the direction; another column is sorted ascending; nothing else changes |
| IndexPage.ChangeSortTwice | cloud-server-frontend/src/components/server/Index.jsx:87-94 | clicking the same header twice restores the state; clicking a new header twice sorts it descending |
| IndexPage.SortStaysSane | cloud-server-frontend/src/components/server/Index.jsx:247-253 | the page starts with, and header clicks keep, a sort column the server whitelists and a direction it understands |
| IndexPage.SortHonoured | cloud-server-frontend/src/components/server/Index.jsx:55-62 | the server sorts by the column the page names, ascending exactly when the page says `asc` |
| IndexPage.Remove | cloud-server-frontend/src/components/server/Index.jsx:127 | filtering out an id keeps exactly the other ids and introduces no repeats |
| IndexPage.ToggleSelect | cloud-server-frontend/src/components/server/Index.jsx:125-129 | the clicked id changes membership, every other id keeps it, and a selection without repeats stays so |
| IndexPage.ToggleSelectTwice | cloud-server-frontend/src/components/server/Index.jsx:125-129 | toggling an id twice gives back the same selected ids |
| IndexPage.ToggleSelectAllAsWritten | cloud-server-frontend/src/components/server/Index.jsx:120-123 | the written toggle clears the selection when its length equals the number of rows on screen, otherwise selects exactly those rows |
| IndexPage.SelectAllMissesPage | cloud-server-frontend/src/components/server/Index.jsx:120-123 | with id 7 selected on another page and only id 3 on screen, the header box is ticked although row 3 is not selected, and clicking it leaves row 3 unselected |
| IndexPage.ToggleSelectAll | cloud-server-frontend/src/components/server/Index.jsx:120-123 | the intended toggle clears the selection when every row on screen is selected, otherwise selects exactly the rows on screen |
| IndexPage.ToggleSelectAllFlips | cloud-server-frontend/src/components/server/Index.jsx:245 | with rows on screen, clicking the intended header box always flips whether it is ticked |
| IndexPage.AsWrittenAgreesOnOnePage | cloud-server-frontend/src/components/server/Index.jsx:120-123 | when the selection holds only rows on screen without repeats, the written check and toggle agree with the intended ones |
| IndexPage.ClickSelectAll | cloud-server-frontend/src/components/server/Index.jsx:245 | with the intended toggle in place of the written one, clicking the header box changes only the selection, and flips the box |
| IndexPage.ButtonsForPage | cloud-server-frontend/src/components/server/Index.jsx:326 | the buttons for a listing response start at page 1, end at its last page, and include the page shown whenever that page exists |
| CreateForm.HandleNumberChange | cloud-server-frontend/src/components/server/Create.jsx:36-43 | the stored number is never below the minimum; text that is NaN or below the minimum stores the minimum, and any other parsed value is stored as is |
| CreateForm.HandleNumberChangeIdempotent | cloud-server-frontend/src/components/server/Create.jsx:36-43 | handling the text of the stored number again stores the same number |
| CreateForm.HandleNumberChangeKeeps | cloud-server-frontend/src/components/server/Create.jsx:36-43 | a typed integer is kept when it is at least the minimum, and raised to the minimum otherwise |
| CreateForm.DefaultsAgree | cloud-server-frontend/src/components/server/Create.jsx:23-29 | the form starts at each input's minimum, which is also the create rule's minimum, and with the column defaults for provider and status |
| CreateForm.DefaultFormAccepted | cloud-server-frontend/src/components/server/Create.jsx:23-29 | the untouched form with a usable name and a free ipv4 address is accepted with the defaults |
| CreateForm.HandledNumbersMeetMinimum | cloud-server-frontend/src/components/server/Create.jsx:123-133 | whatever is typed, the numbers the three inputs store satisfy the create rule's minimums |

## Left out

- Transactions and concurrency are not modelled. `DB::transaction` and two
  requests racing on one row are absent; each request is one step on one
  table value. The version check and the write therefore happen atomically
  here.
- HTTP is not modelled. Status codes and messages appear only as the error
  kinds of `Controller.Error`. Also absent: the JSON envelopes,
  `ServerResource`, authentication, middleware and route model binding. An
  unknown id in `update` is the `NotFound` outcome.
- The database's other failures are left out: a foreign-key refusal on delete,
  a lost connection, and any other `QueryException` that is not a unique-index
  refusal or a value its column refuses. So are the generic 500
  responses.
- The IPv4 syntax check is the parameter `isIpv4` (it belongs to PHP's
  `filter_var`).
- Validation.FieldOkIff models the `integer` rule on decoded JSON only: a
  JSON integer within the 64-bit range passes, and every other value fails.
  The framework's `integer` rule is `filter_var(..., FILTER_VALIDATE_INT)`,
  which also accepts three things refused here. It accepts a numeric string
  such as `"4"`. It accepts JSON `true`, read as `"1"`, whose size for `min`
  and `max` is then its length 1. And it accepts an integral float such as
  `4.0`, read as `"4"`. JSON integers beyond the 64-bit range decode as
  floats and fail, as here (`Controller.WideVersionRefused`).
- The paginator's own parsing of `page` is not modelled. It arrives as an
  integer or as absent. The `from`/`to`, link and `appends` metadata is left
  out.
- `Listing.Matches`: `LIKE` is modelled as exact substring search, and the
  `provider` and `status` filters as exact string equality. The column
  collation is not modelled: in a `_ci` collation `q`, `provider=AWS` and
  `status=Active` also match differently cased text, so `provider=AWS` lists
  the `aws` rows in MySQL and nothing here. The `%` and `_` wildcards inside
  `q` are not modelled either. Text sorting is by code point, not by
  collation.
- `Listing.Listed` is one fixed arrangement of tied rows. The database may
  arrange rows with equal sort keys differently on each page request, so a
  tied row can be served on two pages or on none. `Listing.DbOrder` admits
  every arrangement. What the lemmas promise about the pages the database
  serves (`Listing.IndexOfPage`, `Listing.EveryMatchOnSomePage`, the
  `ServedAlike` clauses of `Listing.SameIndex` and
  `Listing.FalsyFiltersIgnored`) holds only for sorts without ties. Their
  `Index` equalities compare the model's one fixed arrangement.
- `IndexPage.BelowZero` models JavaScript's `value < 0` only for plain
  decimal text: an optional minus, digits and an optional fraction. Exponents,
  surrounding whitespace, `Infinity` and hex text are not covered.
- `CreateForm.HandleNumberChange`: JavaScript numbers are unbounded integers
  here. Precision loss above 2^53 is not modelled.
- The edit form's `handleNumberChange` (Edit.jsx:55-62) is left out. The
  edit form passes it the minimum `" "` rather than a number, so an emptied
  input stores the string `" "`, which the update then sends as blank text.
  The show page, the front-end bulk delete (which
  sends one `DELETE` per id), the login and the toasts are left out.
- The timestamps are the `now` argument.
- Validation.ValidateStore: the request is taken as the client sent it. The
  global `TrimStrings` and `ConvertEmptyStringsToNull` middleware of a default
  Laravel application is not part of this model. Under it a blank string
  reaches the validator as `null`, so a blank `status` on create fails `in`
  rather than the enum column.
- Validation.ValidateUpdate: the same middleware is not modelled. Under it a
  blank `name` would become `null` and fail `string`; here it passes and is
  written.
- Numerals.PhpIntCast reads only the sign and the run of digits. A numeral
  with a fraction or an exponent goes through PHP's float parsing, so
  `(int)"1e2"` is 100 in PHP but 1 here. Saturation at the 64-bit range, and 0
  for a numeral beyond the largest double, are modelled.
- Numerals.PhpCastDecimal covers integer numerals only; the float path above
  is not covered.
- Schema.Insert compares names and addresses by exact string equality. The
  unique indexes compare under the column collation, which is
  case-insensitive in the `_ci` collations, so (aws, "web") beside (aws,
  "Web") is accepted here and refused by MySQL. A refused insert also uses up
  an auto-increment value in InnoDB; here `nextId` is unchanged.
- Schema.Write compares by exact string equality too, with the same
  collation gap as `Schema.Insert`.

## Findings

| source | as written | input that shows it | evidently intended | confidence | as-written member | corrected member |
|---|---|---|---|---|---|---|
| cloud-server-frontend/src/components/server/Index.jsx:120-123 | `toggleSelectAll` and the header checkbox (line 245) compare `selected.length` with `servers.length`. The selection is kept across pages, so a selection of the same size made on another page counts as "all selected". | Select id 7 on one page, then go to a page showing only id 3. The header box is ticked. Clicking it clears the selection, so row 3 is never selected. | Tick the box, and clear on click, only when every row on screen is selected; otherwise select the rows on screen. | not executed | IndexPage.SelectAllMissesPage | IndexPage.ToggleSelectAllFlips |
