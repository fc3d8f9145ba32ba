# Sweet Shop stock ledger in Dafny

This project models the stock-ledger core of the Sweet Shop backend: a
catalog of sweets, each with a stock counter, and an append-only inventory
log of RESTOCK, SALE, DAMAGE and EXPIRED entries. The model covers the
following parts:

- **The stock-change engine** (`logInventoryChange`). It is an imperative
  method over a `Database` object, which holds a map of sweets, their
  insertion order and the log sequence. The method looks the sweet up. It
  adds a RESTOCK quantity, or it subtracts a SALE, DAMAGE or EXPIRED
  quantity when the stock covers it and refuses the request otherwise.
  On success it appends exactly one log entry and writes exactly one stock
  value. It also keeps, for every sweet, the difference between the stock
  and the net change recorded in the log.
- **The three read-only views** of the store:
  - the paginated, filtered log listing, newest first;
  - the inventory report: active sweets, the low-stock list, the 20 most
    recent entries and the per-category count;
  - the stock alerts, with their three severity levels and the summary
    counts.
- **The request guards** of the inventory routes
  (`backend/dist/routes/inventoryRoutes.js:11-15`). Each handler's
  precondition is its guard's acceptance. `ToLogRequest` and `IntOr` show
  that an accepted request meets that precondition.
- **The catalog rules**:
  - record creation;
  - the partial update and the soft delete, each behind the owner-or-admin
    check;
  - the filtered, sorted and paginated listing;
  - the category grouping.
- **The e-mail, password and name checks** of the register and login
  routes.

Support modules:

- `Js` models the JavaScript pieces the code relies on: truthiness,
  `String.prototype.trim` with the ECMAScript white-space set, and
  substring search.
- `Sorting` models what the database does for `where` (an order-keeping
  filter) and `orderBy` (a stable sort by a total-preorder comparator).
- `Pagination` models `skip`, `take` and the `pagination` block.

The model follows the code in these places:

- A log entry stores only the sweet, the type, the quantity, the reason
  and a timestamp. It has no resulting-stock field.
- `logInventoryChange` does not check `isActive`.
- Log entries with the same `createdAt` are not broken by id. The model
  keeps store order among them.
- The current stock is not always reconstructible from the log. The update
  handler writes `stock` without logging it. `UpdateSweet` therefore may
  change the per-sweet balance that `LogInventoryChange` preserves.
- The files hold no multi-line order operation.
- The reason check lets a 500-character reason through, although its
  message says "less than 500".

## Model

| member | source | states |
|---|---|---|
| Db.TypeNamed | backend/dist/middleware/inventoryValidation.js:4 | a tag names an operation exactly when it is one of the four tags, and the operation's name is that tag |
| Db.Active | backend/dist/controllers/inventoryController.js:140-149 | the rows of `where: { isActive: true }` are exactly the active sweets of the table |
| Db.CountCategory | backend/dist/controllers/sweetController.js:272-283 | a category's count is at most the number of sweets, and it is positive exactly when some sweet has that category |
| Db.CategoriesOf | backend/dist/controllers/sweetController.js:272-283 | the categories of the sweets, each once, in ascending order, and no other strings |
| Db.GroupByCategory | backend/dist/controllers/sweetController.js:272-283 | one group per category, in strictly ascending order, each with the number of its sweets (never 0), and every sweet's category has a group |
| Db.Database.Catalog | backend/dist/controllers/inventoryController.js:140-149 | the table a query reads holds, in insertion order, every stored sweet and only stored records |
| Sorting.Select | backend/dist/controllers/inventoryController.js:153-154 | a filter keeps exactly the elements that pass, and nothing longer than its input |
| Sorting.SelectAppend | backend/dist/controllers/inventoryController.js:153-154 | filtering keeps the order: it distributes over concatenation |
| Sorting.SelectCount | backend/dist/controllers/inventoryController.js:153-154 | filtering keeps how often each passing value occurs and drops every other value |
| Sorting.SelectPartition3 | backend/dist/controllers/inventoryController.js:257-261 | three filters that split every value one way have lengths that add up to the whole |
| Sorting.SortBy | backend/dist/controllers/inventoryController.js:98-102 | `orderBy` returns a sorted permutation of the rows |
| Sorting.LexLeIsTotalPreorder | backend/dist/controllers/sweetController.js:279-281 | ordering strings by code point orders every pair and is transitive |
| Sorting.LexLeAntisymmetric | backend/dist/controllers/sweetController.js:279-281 | two strings that each come first in the order are equal |
| Pagination.CeilDiv | backend/dist/controllers/inventoryController.js:116 | `Math.ceil(n / d)`: the least number of pages of `d` entries that hold `n` |
| Pagination.Skip | backend/dist/controllers/inventoryController.js:77 | the entries skipped before a page lie before the end of that page |
| Pagination.Paginate | backend/dist/controllers/inventoryController.js:116-126 | `totalPages` is the ceiling of total over limit, and it is 0 exactly when nothing matched; `hasNext` iff page < totalPages; `hasPrev` iff page > 1 |
| Pagination.HasNextIffMoreRemain | backend/dist/controllers/inventoryController.js:124 | `hasNext` holds exactly when some entry lies beyond the requested page |
| Pagination.Window | backend/dist/controllers/inventoryController.js:101-102 | `skip` and `take` return the entries from `skip` on, at most `take` of them, in order |
| Pagination.WindowAtPage | backend/dist/controllers/inventoryController.js:77 | entry `k` appears on page `k / limit + 1`, at position `k % limit` |
| Pagination.WindowSorted | backend/dist/controllers/inventoryController.js:98-102 | a page of a sorted listing is sorted |
| Js.Trim | backend/dist/middleware/inventoryValidation.js:14 | the result is a stretch of the input with no white space at either end |
| Js.TrimCutsOnlySpace | backend/dist/middleware/inventoryValidation.js:14 | what trimming removes is white space before and after the result, and nothing else |
| Js.TrimEmptyIffAllSpace | backend/dist/middleware/inventoryValidation.js:14 | trimming leaves nothing exactly when the string is all white space |
| Js.TrimIdempotent | backend/dist/controllers/sweetController.js:196 | trimming an already trimmed string changes nothing |
| Js.Find | backend/dist/controllers/sweetController.js:83-98 | substring search answers true exactly when the needle occurs in the text |
| AuthValidation.ValidateEmail | backend/dist/middleware/validation.js:4-7 | accepts exactly the strings matching `^[^\s@]+@[^\s@]+\.[^\s@]+$` |
| AuthValidation.EmailRejectsTwoAts | backend/dist/middleware/validation.js:5 | an address with two `@` is never accepted |
| AuthValidation.ValidatePassword | backend/dist/middleware/validation.js:9-11 | accepts exactly passwords of 6 characters or more |
| AuthValidation.ValidateRegister | backend/dist/middleware/validation.js:13-36 | passes exactly when all three fields are non-empty, the e-mail matches, the password has 6 characters and the trimmed name has 2; each failure (missing fields, e-mail, password, name) is reported exactly when every earlier check passed |
| AuthValidation.ValidateLogin | backend/dist/middleware/validation.js:38-51 | passes exactly when both fields are non-empty and the e-mail matches; the missing-fields message is reported first, and the e-mail message exactly when both fields are present and the e-mail does not match |
| AuthValidation.LoginSkipsPasswordLength | backend/dist/middleware/validation.js:38-51 | a password too short to register with still passes the login guard |
| InventoryValidation.ValidTypesAreTheTags | backend/dist/middleware/inventoryValidation.js:4 | the list of valid types holds exactly the four operation tags |
| InventoryValidation.ValidateInventoryLog | backend/dist/middleware/inventoryValidation.js:8-12 | the "required" message is reported exactly when `sweetId` or `type` is falsy or `quantity` is undefined |
| InventoryValidation.ValidateLogAcceptsExactly | backend/dist/middleware/inventoryValidation.js:5-50 | the guard passes exactly the bodies with a non-blank string id, a known tag, a whole quantity from 1 to 10000 and no reason or a string reason of at most 500 characters |
| InventoryValidation.LogRejectionOrder | backend/dist/middleware/inventoryValidation.js:13-48 | once the required fields are present, each later check reports its own message whenever it fails after every earlier check passed: a blank or non-string id, a type that is not one of the four tag strings (a number, a boolean or an unknown string alike), a non-number, non-positive or non-whole quantity, a quantity over 10000, a reason that is present but not a string, a reason over 500 characters |
| InventoryValidation.QuantityBoundaries | backend/dist/middleware/inventoryValidation.js:26-35 | 10000 is accepted; 10001, 0 and 2.5 are rejected with their messages |
| InventoryValidation.ReasonBoundary | backend/dist/middleware/inventoryValidation.js:37-48 | a 500-character reason is accepted, a 501-character one is rejected |
| InventoryValidation.ToLogRequest | backend/dist/middleware/inventoryValidation.js:5-50 | an accepted body gives the handler a non-blank id, a tag, a quantity from 1 to 10000 and a reason only when one was sent |
| InventoryValidation.ValidateInventoryQuery | backend/dist/middleware/inventoryValidation.js:52-113 | passes exactly when every parameter that is present is acceptable; page errors come first, limit errors second |
| InventoryValidation.IntOr | backend/dist/controllers/inventoryController.js:74-76 | a present parameter gives its parsed value, an absent one the handler's default |
| InventoryController.NetChangeAppend | backend/dist/controllers/inventoryController.js:17-30 | appending an entry adds its signed quantity to its own sweet's net change and to no other |
| InventoryController.StoredReason | backend/dist/controllers/inventoryController.js:38 | an absent or empty reason is stored as null, any other reason unchanged |
| InventoryController.LogInventoryChange | backend/dist/controllers/inventoryController.js:5-70 | unknown id gives NotFound; a reduction beyond the stock gives InsufficientStock(stock, quantity); both leave the store unchanged. Success appends exactly one entry and sets only that sweet's stock to old stock ± quantity, which is returned as `currentStock`. Every sweet keeps stock minus logged net change |
| InventoryController.FilterOf | backend/dist/controllers/inventoryController.js:79-94 | an entry matches exactly when it agrees with every supplied filter: same non-empty sweet id, same type, and createdAt within the inclusive date bounds |
| InventoryController.Matching | backend/dist/controllers/inventoryController.js:95-97 | the entries kept are exactly the matching ones of the table |
| InventoryController.Newest | backend/dist/controllers/inventoryController.js:98-102 | the entries newest first, as a permutation of the input |
| InventoryController.GetInventoryLogs | backend/dist/controllers/inventoryController.js:72-133 | the page starting at `(page-1)*limit` of the matching entries newest first, at most `limit` of them (defaults 1 and 20); each shown entry is in the table and matches; the pagination block counts all matches |
| InventoryController.EveryMatchOnItsPage | backend/dist/controllers/inventoryController.js:74-115 | for any accepted query (with its own limit or the default 20), every matching entry is shown on the page its position in the newest-first order falls on |
| InventoryController.LowStock | backend/dist/controllers/inventoryController.js:153-154 | exactly the active sweets with stock at most the threshold |
| InventoryController.LowStockKeepsStoreOrder | backend/dist/controllers/inventoryController.js:153-161 | the low-stock list keeps store order |
| InventoryController.LowStockOfDatabase | backend/dist/controllers/inventoryController.js:153-154 | over the store's own table, a sweet is listed as low exactly when it is active and at or below the threshold, and each listed row is the stored record |
| InventoryController.GetInventoryReport | backend/dist/controllers/inventoryController.js:135-213 | counts active sweets only; the low-stock rows are the active sweets with stock at most the threshold (default 10) in store order; at most 20 recent entries, newest first, distinct rows of the log (their multiset lies within the log's), none older than any left out; one count per active category |
| InventoryController.Classify | backend/dist/controllers/inventoryController.js:235-245 | OUT_OF_STOCK iff stock is 0, CRITICAL iff 0 < stock ≤ 0.3·threshold, LOW otherwise |
| InventoryController.SeverityMonotone | backend/dist/controllers/inventoryController.js:235-245 | less stock is never classified as less urgent |
| InventoryController.DefaultThresholdLevels | backend/dist/controllers/inventoryController.js:237-245 | with threshold 10: 0 is out of stock, 1 to 3 are critical, 4 to 10 are low |
| InventoryController.AlertedSweets | backend/dist/controllers/inventoryController.js:219-234 | exactly the active sweets with stock at most the threshold, in ascending stock order |
| InventoryController.GetStockAlerts | backend/dist/controllers/inventoryController.js:215-268 | one alert per alerted sweet, in ascending stock order, each with its classified severity (default threshold 10); OUT_OF_STOCK iff stock 0; the three summary counts add up to the total |
| SweetController.AdminOrCreator | backend/dist/controllers/sweetController.js:189-192 | `Authorized`: an admin may change every sweet, any other caller exactly the sweets they created |
| SweetController.TrimmedOrNull | backend/dist/controllers/sweetController.js:27 | a trimmed non-empty text, or null when the text is absent or all white space |
| SweetController.NewSweet | backend/dist/controllers/sweetController.js:24-33 | the record created: trimmed name and category, optional texts trimmed or null, stock 0 when absent or 0, the caller as creator, active |
| SweetController.CreateSweet | backend/dist/controllers/sweetController.js:5-67 | without a user or user id the answer is 401 and nothing changes; otherwise exactly the new record is added |
| SweetController.ApplyUpdate | backend/dist/controllers/sweetController.js:194-215 | each supplied field is written (names trimmed, optional texts trimmed or null); every other field is kept |
| SweetController.EmptyUpdateChangesNothing | backend/dist/controllers/sweetController.js:194-215 | an update that supplies no field leaves the record as it was |
| SweetController.UpdatesCompose | backend/dist/controllers/sweetController.js:194-215 | two updates in a row act as one in which the later body's fields win |
| SweetController.UpdateSweet | backend/dist/controllers/sweetController.js:175-235 | unknown id gives NotFound; a caller who is neither ADMIN nor the creator gets Forbidden; both change nothing; otherwise only that record changes, to the updated record |
| SweetController.DeleteSweet | backend/dist/controllers/sweetController.js:237-268 | NotFound and Forbidden as for update; otherwise only `isActive` of that record becomes false and the record stays |
| SweetController.SoftDeleteHides | backend/dist/controllers/sweetController.js:255-258 | after a soft delete the active sweets are those active before except the deleted one |
| SweetController.ListedIn | backend/dist/controllers/sweetController.js:76-101 | exactly the sweets meeting every supplied filter: case-insensitive category, search in name or description, `isActive` |
| SweetController.ActiveFilterIsLiteral | backend/dist/controllers/sweetController.js:99-101 | any `isActive` value other than the string "true" lists inactive sweets only |
| SweetController.OrderOf | backend/dist/controllers/sweetController.js:102-104 | every field and direction of `orderBy` is a total preorder |
| SweetController.GetAllSweets | backend/dist/controllers/sweetController.js:69-140 | the page at `(page-1)*limit` (defaults 1 and 10) of the listed sweets in the requested order (default newest first), sorted, each listed; the pagination block counts all listed sweets |
| SweetController.GetSweetCategories | backend/dist/controllers/sweetController.js:270-297 | categories of active sweets, each once, ascending, each with a positive count; total is the number of groups |

## Left out

- Money figures: the report's `totalValue` and the breakdown's averages and value are floating-point sums rounded with `Math.round(x*100)/100`. `GetInventoryReport` states the item counts only.
- GetInventoryReport: the breakdown is returned in ascending category order; the source's `groupBy` has no `orderBy` there, so its order is unspecified.
- Classify: compares `10*stock <= 3*threshold` exactly, while the source compares with the floating-point product `threshold * 0.3`; for very large thresholds rounding of that product could differ.
- Concurrency: the engine reads the sweet outside its transaction, so concurrent requests can lose updates. Each method call is modelled as atomic over an in-memory store.
- Parsing: `parseInt`, `parseFloat` and `new Date` are not modelled. Query parameters arrive parsed (a number or NaN, a date or an invalid date).
- Prisma projections (`include`, `select`): listings return whole entries and records without the attached sweet or creator summary. Timestamps the database sets itself (`updatedAt`) are not modelled.
- Row ids and clock readings: the store's generated ids and `now()` are parameters of the methods that create rows.
- Ties: the database leaves the order of rows with equal sort keys unspecified. The model keeps store order among them.
- String order and case: names and categories compare by code point, not by database collation. Case-insensitive matching folds ASCII letters only.
- String lengths count code points, not UTF-16 units. This affects the 500-character reason, the 6-character password and the 2-character name.
- Error answers 500, the debug logging, `$connect`, and the P1001 and P2002 error codes of `createSweet` are not modelled.
- The compiled sweet route guards are not modelled. The listing takes page and limit as the TypeScript guard `.history/backend/src/middleware/sweetValidation_20250920141008.ts:195-239` checks them. The update body takes the field types that file's lines 95-193 check. Its "at least one field" rule and URL check are not modelled.
- Request bodies of the register and login guards: fields are strings or absent. Non-string JSON values are not modelled.
- `authenticateToken`, `requireAdmin`, JWT handling, `getSweetById`, the auth controller and the front end are not part of the core.
