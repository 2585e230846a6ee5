# tiny-requestbin: the bounded request store

tiny-requestbin captures any HTTP request sent to it and shows the captured requests in a browser panel. This project models the store at its core, in `main.go`. The store is a set of package-level variables:

- `requestsStore` maps an id to its captured record.
- `requestIDs` lists the retained ids, oldest first.
- `nextID` is the next id to hand out.
- `maxRequests` is the limit on retained records.

It also models the four pieces of logic that use the store, plus the router:

- id allocation;
- insert with first-in-first-out eviction;
- the newest-first snapshot the panel lists;
- the `view_id` lookup, with its fallback to the newest record;
- the path routing that decides between 204, the panel and capture.

Layout:

- `wrappers.dfy`: `Option`.
- `requests.dfy`: the captured record `RequestInfo`.
- `admission.dfy`: one insert stated on values: the order and the map before and after (`AdmitOrder`, `AdmitMap`), the invariant `InSync`, and runs of inserts (`AdmitAll`).
- `listing.dfy`: the newest-first listing (`NewestFirst`), its reference definition through `Reverse`, the lookup and the selection rule (`Select`).
- `store.dfy`: the class `Store`, whose fields are the package variables. Its methods are the in-place operations, each proved against the value-level functions above. It also holds routing (`RouteOf`, `Handle`) and a small client that captures three requests with a limit of 2.

The store keeps two ghost fields for the proofs:

- `inserted` is the whole insertion history.
- `pending` holds the ids handed out but not inserted yet.

`Valid()` states three things:

- the order and the map mirror each other and stay within the limit;
- the order is the last min(N, C) ids of the history;
- every id is handed out once and inserted at most once.

The model follows the code as written, in particular:

- The limit is never validated (`main.go:68`), so it may be any integer. A limit of zero or less keeps nothing, because each insert evicts the record it just stored (`AdmitWithoutRoom`). The size bound holds inductively from the empty store: eviction is a single `if` (`main.go:138`), not a loop.
- Allocation (`main.go:115-118`) and insertion (`main.go:133-143`) are two separate critical sections, so ids can reach the order out of numeric order. The model allows any interleaving of `Allocate` and `Insert` calls, each id inserted once. It proves ascending order only while requests are handled one at a time (`Store.Sequential`, `Store.SequentialKeepsNewest`).

## Model

| member | source | states |
|---|---|---|
| `RequestBin.Store.constructor` | main.go:42-55 | The store starts empty with `nextID` 0 and the configured limit, and satisfies its invariant. |
| `RequestBin.Store.Allocate` | main.go:115-118 | Returns the current `nextID` and raises it by exactly one. The id returned was never handed out or inserted before, so ids are strictly increasing and never reused, even after evictions. |
| `RequestBin.IssuedAfterAllocate` | main.go:115-118 | Handing out `nextID` keeps the bookkeeping: the new id is neither pending nor in the history, and all ids stay below the counter. |
| `RequestBin.Store.Insert` | main.go:133-142 | The new order and map are `AdmitOrder`/`AdmitMap` of the old ones, which is append, then drop the front id from both on overflow. The invariant is kept and the id joins the insertion history. |
| `RequestBin.IssuedAfterInsert` | main.go:133-142 | Inserting a pending id moves it to the end of the history, so no id is inserted twice. |
| `RequestBin.AdmitKeepsStoreValid` | main.go:133-142 | One insert of a pending id keeps all three parts of the store invariant: in sync, ids issued once, and the order is the tail of the history. |
| `Admission.AdmitPreservesSync` | main.go:133-142 | If the order and the map held the same ids, once each, with equal sizes within the limit, they still do after inserting a fresh id. |
| `Admission.MirrorsAfterAppend` | main.go:134-135 | Storing a record under a fresh id and appending the id keeps the map and the order mirrored. |
| `Admission.MirrorsAfterDropFront` | main.go:139-141 | Deleting the front id from the map and reslicing the order past it keeps them mirrored. |
| `Admission.AdmitBelowLimit` | main.go:134-138 | When the grown order is within the limit, nothing is evicted: the order is the old one plus the new id, and every earlier record is unchanged. |
| `Admission.AdmitAtLimit` | main.go:138-142 | When the grown order exceeds a positive limit, only `requestIDs[0]` leaves the map. The order becomes the old order minus its head plus the new id, and every other retained record is unchanged. |
| `Admission.AdmitWithoutRoom` | main.go:138-141 | With a limit of zero or less, the store is empty after every insert. |
| `Admission.AdmitKeepsNewRecord` | main.go:134-135 | With a limit of at least 1, the new id is the last element of the order and its record is stored under it. |
| `Admission.EvictedNeverReturns` | main.go:138-141 | Eviction is permanent: an id of the history that is no longer retained stays out of the order after any further inserts of other ids. |
| `Admission.AdmitRetainsTail` | main.go:135-141 | If the order is the last min(N, C) ids of the history, one insert leaves the last min(N+1, C) ids of the extended history. |
| `Admission.AdmitAllRetainsTail` | main.go:133-142 | Any run of inserts leaves exactly the last min(N, C) ids of the whole history, in insertion order. |
| `Admission.AdmitAllFromEmpty` | main.go:133-142 | From an empty store, a run of inserts keeps the last min(N, C) ids of the run. |
| `Admission.FifoKeepsNewest` | main.go:115-142 | Inserting ids 0..N-1 into an empty store keeps exactly N-min(N, C)..N-1, in strictly increasing order. |
| `RequestBin.Store.SequentialKeepsNewest` | main.go:115-142 | While requests are captured one at a time, the retained ids are the last min(N, C) of 0..N-1, strictly increasing. |
| `RequestBin.Store.Snapshot` | main.go:157-165 | The loop over a preallocated array returns `NewestFirst` of the order and the map. Element i is the record of `requestIDs[len-1-i]`. |
| `Listing.Reverse` | main.go:160-162 | The reversal used as the reference has the same length and the same elements, with their counts. |
| `Listing.ReverseAt` | main.go:161-162 | Element k of the reversal is element len-1-k of the original. |
| `Listing.ListingIsReversedOrder` | main.go:157-165 | For a store in sync, the snapshot's ids are exactly the reversed insertion order. Element 0 is the newest surviving record, the snapshot is within the limit, and it holds every retained record. |
| `Listing.LookupFindsRetained` | main.go:174-180 | A lookup succeeds exactly when the id is currently retained. What it finds carries that id and is one of the listed records. |
| `Listing.SelectionCases` | main.go:167-187 | A retained `view_id` selects its record. Otherwise the newest record is selected. Nothing is selected exactly when the store is empty, and a selected record is always in the listing. |
| `RequestBin.Store.MainPage` | main.go:156-192 | The panel data is the newest-first listing plus the selection applied to the `view_id` lookup. |
| `RequestBin.Store.Capture` | main.go:106-147 | An unreadable body changes nothing and yields the error. Otherwise the request is captured under the old `nextID`: the counter advances by one and the store is updated as `Insert` states. Sequential capture is preserved. |
| `RequestBin.RouteCapturesAllOtherPaths` | main.go:91-102 | `/favicon.ico` and `/` are never captured, `/` alone shows the panel, and every other path is captured. |
| `RequestBin.Store.Handle` | main.go:89-103 | The favicon gets 204 and the panel path renders the panel, both leaving the store unchanged. Any other path is captured with `Capture`'s full effect: an unreadable body changes nothing, and otherwise the counter advances by one and the order and map become `AdmitOrder`/`AdmitMap` of the old ones with the new record under the old `nextID`. |
| `RequestBin.CaptureThreeWithLimitTwo` | main.go:133-142 | With a limit of 2, capturing three requests retains ids 1 and 2 with their records. Id 0 has been evicted. |
| `RequestBin.PanelAfterEviction` | main.go:156-187 | Over that store the panel lists the third record, then the second. A `view_id` of the evicted id 0 falls back to the newest record, and a `view_id` of 1 selects the second record. |
| `RequestBin.RecordOf` | main.go:121-130 | The captured record carries the allocated id, the clock reading, the body read, and the request's method, path, protocol, headers and remote address. |

## Left out

- The HTTP server, flag parsing, `http.ListenAndServe`, reading the body and the response writes and texts (main.go:59-85, 106-113, 145-147) are I/O. A body that cannot be read is the input `body == None`, and the handler's answer is a `Response` value.
- Concurrency and the `sync.RWMutex` are left out: the store is modelled sequentially. The `pending` set lets `Allocate` and `Insert` calls interleave in any order, which covers out-of-order insertion, but parallel execution is not expressed.
- `RequestBin.Store.MainPage`: the source takes the snapshot and the lookup under two separate read locks (main.go:157-165, 174-177), so an insert may fall between them. The model reads a single state.
- `strconv.Atoi` parsing of `view_id` (main.go:170-173) is left out: `viewId` is an optional integer, None when the parameter is absent, empty or not a number.
- `time.Now()` becomes the parameter `now`. Headers, body and the other payload fields are carried along but never inspected.
- Template loading and execution, `formatTime`, `isCurrent` and `prettyPrintJson` (main.go:197-241) are HTML generation on foreign libraries.
- `printRequestToCLI` and the `cliMode` switch (main.go:149-152, 243-282) are console output only.
- `RequestBin.Store.Allocate`: does not model wrap-around of Go's `int` counter, which is 32 or 64 bits depending on the platform. `nextID` is unbounded. On a 64-bit build no realistic run reaches the wrap. On a 32-bit build `nextID++` (main.go:117) wraps after 2^31 captures, and from then on the model's `0 <= id` and the freshness of each id no longer describe the program.
- `RequestBin.Store.Insert`: requires the record's id to have been handed out and not inserted yet. The source never checks this: its insert block only ever receives the id allocated a few lines earlier in the same handler.
- `RequestBin.Store.Snapshot`: the source reads `requestsStore[id]`, which would give a zero record for a missing key. The invariant guarantees every id in the order has a record, so that case is not modelled.
