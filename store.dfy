/**
 * The request bin's store (main.go:42-55) and the request paths that use
 * it: routing (main.go:89-103), capture (main.go:106-153) and the panel
 * (main.go:156-195). The package-level variables become the fields of one
 * `Store` object; the HTTP plumbing around them is reduced to the values
 * the store consumes and produces.
 */
module RequestBin {
  import opened Wrappers
  import opened Requests
  import opened Admission
  import opened Listing

  /** What the panel template receives: the listing and the request shown in detail. */
  datatype PageData = PageData(allRequests: seq<RequestInfo>, selectedRequest: Option<RequestInfo>)

  /**
   * An incoming request, as far as the store is concerned. `body` is None
   * when reading the body failed; `viewId` is the `view_id` query parameter
   * when it is present and parses as an integer.
   */
  datatype HttpRequest = HttpRequest(
    requestMethod: string,
    path: string,
    proto: string,
    headers: Headers,
    body: Option<string>,
    remoteAddr: string,
    viewId: Option<int>
  )

  /** The handler's answer: 204, the rendered panel, the capture acknowledgment, or 500 for an unreadable body. */
  datatype Response = NoContent | Panel(page: PageData) | Captured(id: int) | BodyUnreadable

  datatype Route = SkipFavicon | ShowPanel | CaptureRequest

  /** Which of the three paths a request takes, by its URL path alone. */
  function RouteOf(path: string): Route
  {
    if path == "/favicon.ico" then SkipFavicon
    else if path == "/" then ShowPanel
    else CaptureRequest
  }

  /** The favicon and the panel are never captured; every other path is. */
  lemma RouteCapturesAllOtherPaths(path: string)
    ensures RouteOf(path) == CaptureRequest <==> path != "/favicon.ico" && path != "/"
    ensures RouteOf(path) == ShowPanel <==> path == "/"
  {
  }

  /** The record the capture path builds for `req` under `id`, stamped with the clock reading `now`. */
  function RecordOf(req: HttpRequest, id: int, now: int): (r: RequestInfo)
    requires req.body.Some?
    ensures r.id == id && r.timestamp == now && r.body == req.body.value
    ensures r.requestMethod == req.requestMethod && r.path == req.path && r.proto == req.proto
    ensures r.headers == req.headers && r.remoteAddr == req.remoteAddr
  {
    RequestInfo(id, req.requestMethod, req.path, req.proto, req.headers, req.body.value, now, req.remoteAddr)
  }

  /** Every id handed out is non-negative and below `next`; each is either pending or inserted, and inserted at most once. */
  ghost predicate Issued(inserted: seq<int>, pending: set<int>, next: int)
  {
    && 0 <= next
    && Distinct(inserted)
    && (forall i :: 0 <= i < |inserted| ==> 0 <= inserted[i] < next && inserted[i] !in pending)
    && (forall id :: id in pending ==> 0 <= id < next)
  }

  /** Handing out `next` keeps the bookkeeping, and the id handed out was never handed out before. */
  lemma IssuedAfterAllocate(inserted: seq<int>, pending: set<int>, next: int)
    requires Issued(inserted, pending, next)
    ensures Issued(inserted, pending + {next}, next + 1)
    ensures next !in pending && next !in inserted
  {
  }

  /** Inserting a pending id moves it from the pending set to the end of the history. */
  lemma IssuedAfterInsert(inserted: seq<int>, pending: set<int>, next: int, id: int)
    requires Issued(inserted, pending, next)
    requires id in pending
    ensures Issued(inserted + [id], pending - {id}, next)
  {
  }

  /** A pending id is not among the retained ones, which all come from the history. */
  lemma PendingNotRetained(inserted: seq<int>, pending: set<int>, next: int, k: nat, id: int)
    requires Issued(inserted, pending, next)
    requires k <= |inserted|
    requires id in pending
    ensures id !in LastN(inserted, k)
  {
  }

  /** One insert of a pending id keeps all three parts of the store's invariant. */
  lemma AdmitKeepsStoreValid(order: seq<int>, m: map<int, RequestInfo>, inserted: seq<int>, pending: set<int>,
                             next: int, cap: int, rec: RequestInfo)
    requires InSync(order, m, cap) && Issued(inserted, pending, next)
    requires order == LastN(inserted, Kept(|inserted|, cap))
    requires rec.id in pending
    ensures InSync(AdmitOrder(order, rec.id, cap), AdmitMap(m, order, rec, cap), cap)
    ensures Issued(inserted + [rec.id], pending - {rec.id}, next)
    ensures AdmitOrder(order, rec.id, cap) == LastN(inserted + [rec.id], Kept(|inserted| + 1, cap))
  {
    PendingNotRetained(inserted, pending, next, Kept(|inserted|, cap), rec.id);
    AdmitPreservesSync(order, m, rec, cap);
    AdmitRetainsTail(inserted, rec.id, cap);
    IssuedAfterInsert(inserted, pending, next, rec.id);
  }

  lemma RangeGrows(n: nat)
    ensures Range(0, n + 1) == Range(0, n) + [n]
  {
  }

  class Store {
    /** The retained records by id. */
    var requestsStore: map<int, RequestInfo>
    /** The retained ids, oldest first. */
    var requestIDs: seq<int>
    /** The next id to hand out. */
    var nextID: int
    /** The limit on retained records, taken as given: it is never validated. */
    const maxRequests: int

    /** Every id ever inserted, in insertion order. */
    ghost var inserted: seq<int>
    /** Ids handed out and not yet inserted. */
    ghost var pending: set<int>

    /**
     * The map and the order agree and are within the limit; the order is
     * the last min(N, C) ids of the insertion history; every id handed out
     * is below `nextID` and is inserted at most once.
     */
    ghost predicate Valid()
      reads this
    {
      && InSync(requestIDs, requestsStore, maxRequests)
      && Issued(inserted, pending, nextID)
      && requestIDs == LastN(inserted, Kept(|inserted|, maxRequests))
    }

    /** Holds while every id handed out was inserted right after, one request at a time: then ids 0, ..., nextID - 1 were inserted in order. */
    ghost predicate Sequential()
      reads this
    {
      0 <= nextID && pending == {} && inserted == Range(0, nextID)
    }

    /** The empty store of the program's start, with the configured limit (main.go:44-52, 68). */
    constructor (maxRequests: int)
      ensures Valid() && Sequential()
      ensures this.maxRequests == maxRequests
      ensures requestsStore == map[] && requestIDs == [] && nextID == 0
    {
      this.maxRequests := maxRequests;
      requestsStore := map[];
      requestIDs := [];
      nextID := 0;
      inserted := [];
      pending := {};
    }

    /** Hands out the next id and advances the counter by one (main.go:115-118). */
    method Allocate() returns (id: int)
      requires Valid()
      modifies this`nextID, this`pending
      ensures Valid()
      ensures id == old(nextID) && nextID == old(nextID) + 1
      ensures 0 <= id && id !in old(pending) && id !in inserted
      ensures pending == old(pending) + {id}
    {
      IssuedAfterAllocate(inserted, pending, nextID);
      id := nextID;
      nextID := nextID + 1;
      pending := pending + {id};
    }

    /**
     * Stores the record, appends its id and, when the order is then longer
     * than the limit, evicts the oldest id from both (main.go:133-142).
     * The record's id must have been handed out and not inserted yet.
     */
    method Insert(rec: RequestInfo)
      requires Valid()
      requires rec.id in pending
      modifies this`requestsStore, this`requestIDs, this`inserted, this`pending
      ensures Valid()
      ensures requestIDs == AdmitOrder(old(requestIDs), rec.id, maxRequests)
      ensures requestsStore == AdmitMap(old(requestsStore), old(requestIDs), rec, maxRequests)
      ensures inserted == old(inserted) + [rec.id] && pending == old(pending) - {rec.id}
    {
      ghost var order, m := requestIDs, requestsStore;
      requestsStore := requestsStore[rec.id := rec];
      requestIDs := requestIDs + [rec.id];
      if |requestIDs| > maxRequests {
        var oldestID := requestIDs[0];
        requestsStore := requestsStore - {oldestID};
        requestIDs := requestIDs[1..];
      }
      AdmitKeepsStoreValid(order, m, inserted, pending, nextID, maxRequests, rec);
      inserted := inserted + [rec.id];
      pending := pending - {rec.id};
    }

    /** Copies the retained records into a fresh sequence, newest first, walking the order backwards (main.go:157-165). */
    method Snapshot() returns (requests: seq<RequestInfo>)
      requires Valid()
      ensures requests == NewestFirst(requestIDs, requestsStore)
    {
      var n := |requestIDs|;
      var buffer := new RequestInfo[n];
      for i := 0 to n
        invariant forall k :: 0 <= k < i ==> requestIDs[n - 1 - k] in requestsStore && buffer[k] == requestsStore[requestIDs[n - 1 - k]]
      {
        var id := requestIDs[n - 1 - i];
        assert id in requestIDs;
        buffer[i] := requestsStore[id];
      }
      requests := buffer[..];
    }

    /**
     * Builds the panel's data: the newest-first listing and the selected
     * request, which is the record of `viewId` when it is retained and
     * otherwise the newest record, if any (main.go:156-192).
     */
    method MainPage(viewId: Option<int>) returns (page: PageData)
      requires Valid()
      ensures page.allRequests == NewestFirst(requestIDs, requestsStore)
      ensures page.selectedRequest == Select(Find(requestsStore, viewId), page.allRequests)
    {
      var requests := Snapshot();
      var found: Option<RequestInfo> := None;
      if viewId.Some? && viewId.value in requestsStore {
        found := Some(requestsStore[viewId.value]);
      }
      page := PageData(requests, Select(found, requests));
    }

    /**
     * Captures a request: on an unreadable body nothing changes; otherwise
     * it allocates an id, builds the record and inserts it (main.go:106-147).
     */
    method Capture(req: HttpRequest, now: int) returns (resp: Response)
      requires Valid()
      modifies this`requestsStore, this`requestIDs, this`nextID, this`inserted, this`pending
      ensures Valid()
      ensures req.body.None? ==> resp == BodyUnreadable && unchanged(this)
      ensures req.body.Some? ==>
        && resp == Captured(old(nextID))
        && nextID == old(nextID) + 1
        && requestIDs == AdmitOrder(old(requestIDs), old(nextID), maxRequests)
        && requestsStore == AdmitMap(old(requestsStore), old(requestIDs), RecordOf(req, old(nextID), now), maxRequests)
        && inserted == old(inserted) + [old(nextID)] && pending == old(pending)
      ensures old(Sequential()) ==> Sequential()
    {
      if req.body.None? {
        return BodyUnreadable;
      }
      ghost var wasSequential := Sequential();
      var id := Allocate();
      var reqInfo := RecordOf(req, id, now);
      Insert(reqInfo);
      resp := Captured(id);
      if wasSequential {
        RangeGrows(id);
      }
    }

    /** Dispatches a request by its path (main.go:89-103). */
    method Handle(req: HttpRequest, now: int) returns (resp: Response)
      requires Valid()
      modifies this`requestsStore, this`requestIDs, this`nextID, this`inserted, this`pending
      ensures Valid()
      ensures RouteOf(req.path) == SkipFavicon ==> resp == NoContent && unchanged(this)
      ensures RouteOf(req.path) == ShowPanel ==>
        && unchanged(this)
        && resp == Panel(PageData(NewestFirst(requestIDs, requestsStore),
                                  Select(Find(requestsStore, req.viewId), NewestFirst(requestIDs, requestsStore))))
      ensures RouteOf(req.path) == CaptureRequest && req.body.Some? ==>
        && resp == Captured(old(nextID))
        && nextID == old(nextID) + 1
        && requestIDs == AdmitOrder(old(requestIDs), old(nextID), maxRequests)
        && requestsStore == AdmitMap(old(requestsStore), old(requestIDs), RecordOf(req, old(nextID), now), maxRequests)
        && inserted == old(inserted) + [old(nextID)] && pending == old(pending)
      ensures RouteOf(req.path) == CaptureRequest && req.body.None? ==> resp == BodyUnreadable && unchanged(this)
    {
      match RouteOf(req.path)
      case SkipFavicon =>
        resp := NoContent;
      case ShowPanel =>
        var page := MainPage(req.viewId);
        resp := Panel(page);
      case CaptureRequest =>
        resp := Capture(req, now);
    }

    /** While requests are captured one at a time, the retained ids are the last min(N, C) of 0, ..., N-1, in increasing order. */
    lemma SequentialKeepsNewest()
      requires Valid() && Sequential()
      ensures requestIDs == Range(nextID - Kept(nextID, maxRequests), nextID)
      ensures forall i, j :: 0 <= i < j < |requestIDs| ==> requestIDs[i] < requestIDs[j]
    {
    }
  }

  lemma ThirdInsertEvictsFirst(recA: RequestInfo, recB: RequestInfo, recC: RequestInfo)
    requires recA.id == 0 && recB.id == 1 && recC.id == 2
    ensures AdmitOrder([0, 1], 2, 2) == [1, 2]
    ensures AdmitMap(map[0 := recA, 1 := recB], [0, 1], recC, 2) == map[1 := recB, 2 := recC]
  {
  }

  /**
   * A client of the contracts above: with a limit of 2, three captures keep
   * the last two records.
   */
  method CaptureThreeWithLimitTwo(a: HttpRequest, b: HttpRequest, c: HttpRequest, now: int) returns (store: Store)
    requires a.body.Some? && b.body.Some? && c.body.Some?
    ensures fresh(store) && store.Valid()
    ensures store.requestIDs == [1, 2]
    ensures store.requestsStore == map[1 := RecordOf(b, 1, now), 2 := RecordOf(c, 2, now)]
  {
    store := new Store(2);
    ghost var recA, recB, recC := RecordOf(a, 0, now), RecordOf(b, 1, now), RecordOf(c, 2, now);
    var r0 := store.Capture(a, now);
    assert store.requestIDs == [0] && store.requestsStore == map[0 := recA];
    var r1 := store.Capture(b, now);
    assert store.requestIDs == [0, 1] && store.requestsStore == map[0 := recA, 1 := recB];
    assert store.nextID == 2;
    var r2 := store.Capture(c, now);
    ThirdInsertEvictsFirst(recA, recB, recC);
  }

  /** The panel over that store lists the two newest first; the evicted id 0 falls back to the newest, id 1 is found. */
  method PanelAfterEviction(a: HttpRequest, b: HttpRequest, c: HttpRequest, now: int) returns (evicted: PageData, found: PageData)
    requires a.body.Some? && b.body.Some? && c.body.Some?
    ensures evicted.allRequests == [RecordOf(c, 2, now), RecordOf(b, 1, now)]
    ensures evicted.selectedRequest == Some(RecordOf(c, 2, now))
    ensures found.allRequests == evicted.allRequests
    ensures found.selectedRequest == Some(RecordOf(b, 1, now))
  {
    var store := CaptureThreeWithLimitTwo(a, b, c, now);
    var recB, recC := RecordOf(b, 1, now), RecordOf(c, 2, now);
    evicted := store.MainPage(Some(0));
    assert evicted.allRequests == [recC, recB];
    found := store.MainPage(Some(1));
  }
}
