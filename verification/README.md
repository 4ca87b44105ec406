# yad2crawler listing sync and listing query, in Dafny

This project models two parts of yad2crawler, a crawler that keeps a local
table of real-estate listings from the Yad2 map feed.

The first part is the **sync routine** `fetchYad2Listings`. It fetches the
feed's markers. It then upserts one listing per marker, keyed by the marker's
token. An existing listing only gets a new price and last-seen time. A new
listing is created from every field of the marker. Each run appends one row
to the run log: SUCCESS with the marker count, or FAILURE with the error's
message. The only exception is a failed write of the FAILURE row itself,
which appends nothing. A failed run rethrows its error.

The second part is the **listing query** `GET /api/listings`. Optional
query-string parameters become a `where` filter on hidden, favourite, price
and rooms. The matching listings are returned favourites first, and newest
first within each group.

Modules:

- `Wrappers` holds `Option` and `Result`.
- `Feed` holds the marker record, `Error` and `Time`.
- `Listings` holds the stored `Listing`, the `Store` (a map from listing id to
  listing) and `CreateFields`, the upsert's `create` object.
- `Sync` holds `Upsert`, the marker loop `Reconcile`, the whole run `FetchListings`,
  the reference store `Converged`, and the lemmas about them.
- `Query` holds the query parameters, `BuildWhere`, the `findMany` scan and
  `Get`.

Effects are parameters:

- The feed client's outcome is a `FeedResult` argument.
- The run's clock is one `now: Time`.
- Storage write failures come from a `Faults` oracle. It can fail the
  listing write at index `k`, the SUCCESS-row write, or the FAILURE-row
  write.

### Which marker fields may be absent

Only some objects of a marker may be absent without failing the run. The
optionally chained objects neighborhood, area, street, house and property
(src/lib/yad2.ts:72-76, 79) are stored as absent. A missing image list is
replaced by the empty list through `|| []` (src/lib/yad2.ts:81).

The objects read without optional chaining are required: address, city,
coords, additionalDetails and metaData. When one is missing, evaluating the
`create` object raises a TypeError. This happens even for a token already in
the table, because the `create` object is built before the upsert call. The
marker loop stops there, and the run logs FAILURE and rethrows. The
`squareMeter` fallback reads `metaData` only when `squareMeter` is falsy
(src/lib/yad2.ts:78).

See `Listings.CreateFields` and `Sync.SyncMappingFailure`.

## Model

| member | source | states |
|---|---|---|
| Listings.CreateFields | src/lib/yad2.ts:67-87 | The create object exists exactly when address, city, coords, additionalDetails and metaData are all present. Otherwise it fails with the TypeError of the first field that reads through a missing object, in the literal's evaluation order. `squareMeters` is the details figure when it is present and non-zero, otherwise the metadata's built-area figure. Absent optionally chained objects are stored as absent, and a missing image list as empty. Every other created field is copied from the marker: city, present neighborhood, area, street, house number and floor, coordinates, rooms, property type, cover image and a present image list. A created listing has id = token, yad2Id = orderId, the marker's price, first seen = last seen = now, is neither favourite nor hidden, and keeps the whole marker as raw data. |
| Sync.Upsert | src/lib/yad2.ts:60-88 | Succeeds exactly when the marker maps; otherwise it fails with the mapping error, whether or not the key exists. On success the keys are the old keys plus the token, and every other key keeps its listing. An existing listing changes only its price and last-seen time: every creation field and the favourite and hidden flags are kept. A new listing is the create object. |
| Sync.UpsertIdempotent | src/lib/yad2.ts:60-88 | Upserting the same marker twice at the same instant gives the same store as upserting it once. |
| Sync.Reconcile | src/lib/yad2.ts:59-89 | The sequential loop stops, if at all, at an index inside the marker list, and never removes a key. |
| Sync.ReconcileCompletes | src/lib/yad2.ts:59-89 | The loop completes exactly when every marker maps and no listing write in its range faults. |
| Sync.FirstWithIsFirstOccurrence | src/lib/yad2.ts:59-87 | A new listing is created from the earliest marker in the feed that carries its token. Later markers with that token only update it. |
| Sync.LatestPriceIsLastOccurrence | src/lib/yad2.ts:59-66 | The price a token ends with is the price of its last marker in the feed. |
| Sync.ConvergedStep | src/lib/yad2.ts:59-88 | Upserting the head marker and then converging on the rest is converging on the whole list. This is the step that ties the loop to the reference store. |
| Sync.ReplayConverges | src/lib/yad2.ts:59-88 | Writing the markers one by one without faults reaches the reference store `Converged`. |
| Sync.ReconcileConverges | src/lib/yad2.ts:59-89 | A completed loop leaves exactly the reference store, and all its markers mapped. |
| Sync.ConvergedKeys | src/lib/yad2.ts:60-61 | The reference store's keys are the old keys plus the feed's tokens: one row per token, no duplicates. |
| Sync.ReconcileAbortsPrefix | src/lib/yad2.ts:59-89 | When the loop stops at relative index `k`, the markers before `k` all mapped and the store is their fault-free replay. |
| Sync.ReconcileAbortMapping | src/lib/yad2.ts:59-89 | A loop that stops on a marker that does not map stops with that marker's mapping error. |
| Sync.ReconcileAbortFault | src/lib/yad2.ts:59-89 | A loop that stops on a marker that maps stops on that index's write fault. No write before that index faulted. |
| Sync.ReconcileAborts | src/lib/yad2.ts:59-89 | Partial commit: a loop stopped at `at` leaves the reference store of the markers before `at`, with the old keys plus their tokens. Nothing from marker `at` onwards is applied. |
| Sync.ReconcileMappingFailure | src/lib/yad2.ts:59-89 | The loop stops at the first unmappable marker with its mapping error, and the markers before it are applied. This holds whatever write faults lie at or after that marker, because the loop never reaches them. |
| Sync.ReconcileWriteFault | src/lib/yad2.ts:59-89 | When the write of marker `k` fails and markers up to `k` map, the loop stops at `k` with that error, and the markers before `k` are applied. |
| Sync.FailureMessage | src/lib/yad2.ts:106 | The FAILURE row's message is the error's message when that is a non-empty string, and "Unknown error" when it is absent or empty. A TypeError logs V8's message for reading a property of `undefined`. |
| Sync.FetchListings | src/lib/yad2.ts:53-110 | The log is append-only and gains exactly one row unless the FAILURE-row write itself fails. The run succeeds exactly when the fetch succeeded, every marker maps, no listing write faults and the SUCCESS row is written. On success the run returns the marker count, logs SUCCESS with that count, and leaves the reference store. On failure it logs one FAILURE row with the message of the error it rethrows. A failed fetch touches no listing. |
| Sync.SyncSucceeds | src/lib/yad2.ts:91-99 | A fault-free run over mappable markers returns the marker count, leaves the old keys plus the tokens, and appends one SUCCESS row with that count. |
| Sync.SyncListing | src/lib/yad2.ts:59-88 | After a successful run, a key not in the feed is untouched. A key in the feed is last seen now and carries the price of its last marker. An existing listing keeps its creation fields and annotations. A new listing is created from the token's first marker: first seen now, not favourite, not hidden. |
| Sync.SyncWriteFailure | src/lib/yad2.ts:59-110 | If the write of marker `k` fails, the markers before `k` stay applied and nothing from `k` on is. One FAILURE row carries the error's message, and the same error is rethrown. |
| Sync.SyncLoopFailure | src/lib/yad2.ts:59-110 | When the marker loop stops, whatever the faults, the run rethrows the loop's own error and one FAILURE row carries its message, unless writing that row fails. A later write fault or a SUCCESS-row fault cannot replace that error. The markers before the stopping one all mapped and stay applied. |
| Sync.SyncMappingFailure | src/lib/yad2.ts:67-110 | A marker missing a required nested object fails the run with a TypeError, even when its listing exists. This holds whatever write faults lie at or after it, and whether or not the SUCCESS row could be written. The markers before it stay applied, one FAILURE row carries the TypeError's message, and the TypeError is rethrown. |
| Sync.SyncSuccessRowFails | src/lib/yad2.ts:91-110 | If every listing write succeeds but the SUCCESS row cannot be written, the catch block appends a FAILURE row and rethrows that write's error. All markers stay applied. |
| Sync.SyncTwice | src/lib/yad2.ts:59-99 | Two fault-free runs over the same feed leave the same keys and listings as the first run, except that the feed's listings are last seen at the second run's time. Each run logs a row. |
| Sync.ConvergedWellFormed | src/lib/yad2.ts:60-87 | Converging keeps every listing under its own id, with first-seen no later than last-seen no later than now. |
| Sync.ReconcilePreservesWellFormed | src/lib/yad2.ts:59-89 | The loop keeps the store well formed whether it completes or stops. |
| Sync.SyncPreservesWellFormed | src/lib/yad2.ts:53-110 | Whatever the feed and the faults, a run whose clock is not behind any stored last-seen time keeps ids aligned with keys and first-seen no later than last-seen. |
| Sync.RepricedListing | src/lib/yad2.ts:60-88 | A new marker followed by a run with the same token at another price: the first run creates the listing from the marker, and the second changes only its price and last-seen time. |
| Query.BuildWhere | src/app/api/listings/route.ts:8-29 | A listing matches the built filter exactly when it is admissible. Hidden listings are excluded unless `showHidden` is "true". Only favourites are kept when `favorites` is "true". Each active price or rooms bound holds. A minimum and a maximum on one column are merged into one range, and no bound leaves the column unconstrained. |
| Query.Insert | src/app/api/listings/route.ts:31-37 | Inserting a row into the result keeps exactly the old rows plus the new one, as a multiset. |
| Query.InsertOrdered | src/app/api/listings/route.ts:33-36 | Inserting into a sequence ordered by favourite descending, then first-seen descending, keeps it ordered. |
| Query.FindMany | src/app/api/listings/route.ts:31-37 | The scan returns rows in the requested order. Every row is a stored listing that matches, every matching stored listing is returned, and there is one row per matching key. |
| Query.Get | src/app/api/listings/route.ts:6-40 | Sound and complete against the admissibility reading of the parameters, with one row per admissible key. Favourites come first, and within a favourite group first-seen times do not increase. |

## Left out

- The HTTP request, its fixed URL and headers, and JSON decoding of the response are left out. The feed client's outcome is an argument: the marker list, or the error it threw. A response without `data.markers` is such an error.
- `JSON.stringify` of the image list and of the raw marker is not modelled. The listing stores the list and the marker themselves.
- Console logging is left out, because it has no effect on state.
- The database is an atomic map from id to listing. Concurrent runs, transactions and the storage layer's validation of field types and nulls are left out. A storage failure appears only as a `Faults` entry.
- Each `new Date()` in the source is read separately. The model uses one `now` per run, because the readings differ only by the time the run takes.
- The SyncLog row's own timestamp and id, and the listing's auto-updated columns, are not modelled.
- JavaScript numbers are modelled as integers (price, order id, square metres, house number, floor) or reals (rooms, coordinates, query bounds). NaN, infinities and floating-point rounding are left out, so truthiness of `squareMeter` is "present and non-zero".
- Query.Bound: `Number(text)` parsing is not modelled. A parameter carries its text and the number it parses to, and a text that parses to NaN is not handled.
- Query.FindMany: rows that tie on both favourite and first-seen may come in any order from the database. The model fixes one order and states only the order the query requests.
- Query.FindMany: the contract fixes which listings are returned and how many rows there are, not how often each listing appears. The two agree with one row per key only when no two keys hold equal listings. A store whose listings sit under their own ids (`Sync.WellFormed`) never holds equal listings under two keys. The same holds for `Query.Get`.
- The TypeError messages are those of the V8 engine; another engine words them differently.
- Sync.FailureMessage: a JSON `null` for a nested object of a marker is modelled like an absent object. V8 then logs "Cannot read properties of null" rather than "of undefined", and the model always uses the "undefined" wording.
- Feed.Marker: every scalar field the routine reads (token, orderId, price, roomsCount, coverImage, coordinates, house number and floor) is assumed present and of the declared type.
- Sync.Upsert: a marker without `price` is not modelled. The source would then pass `price: undefined` to the storage layer, whose handling of it is not part of this model. The model always writes `m.price`.
- The cron and environment-check routes, the listing PATCH route and the web pages are outside the modelled core.
- The Listing table's columns are flat in the source. The model groups the creation-only columns into `Location`, `Physical` and `Media`.
