/**
 * The two queries the panel makes of the store (main.go:156-187): the
 * newest-first listing and the lookup of `view_id`, and the rule that
 * picks the request shown in detail.
 */
module Listing {
  import opened Wrappers
  import opened Requests
  import opened Admission

  /** The reference reversal, built from the front: independent of how the listing indexes the order. */
  function Reverse<T>(s: seq<T>): (r: seq<T>)
    ensures |r| == |s|
    ensures multiset(r) == multiset(s)
  {
    if s == [] then []
    else
      assert s == [s[0]] + s[1..];
      Reverse(s[1..]) + [s[0]]
  }

  /** Element `k` of the reversal is element `|s| - 1 - k` of the original. */
  lemma {:induction false} ReverseAt<T>(s: seq<T>, k: nat)
    requires k < |s|
    ensures Reverse(s)[k] == s[|s| - 1 - k]
  {
    if k < |s| - 1 {
      ReverseAt(s[1..], k);
    }
  }

  function Ids(rs: seq<RequestInfo>): seq<int>
  {
    seq(|rs|, i requires 0 <= i < |rs| => rs[i].id)
  }

  /** Every id of the order has a record. */
  ghost predicate Stored(order: seq<int>, m: map<int, RequestInfo>)
  {
    forall i :: 0 <= i < |order| ==> order[i] in m
  }

  /** The listing the panel shows: element `i` is the record of the id `i` places from the end of the order. */
  function NewestFirst(order: seq<int>, m: map<int, RequestInfo>): seq<RequestInfo>
    requires Stored(order, m)
  {
    seq(|order|, i requires 0 <= i < |order| => m[order[|order| - 1 - i]])
  }

  /**
   * For a store in sync, the listing holds every retained record once, its
   * ids are the insertion order reversed, its first element is the most
   * recent surviving record, and it never exceeds the limit.
   */
  lemma ListingIsReversedOrder(order: seq<int>, m: map<int, RequestInfo>, cap: int)
    requires InSync(order, m, cap)
    ensures Ids(NewestFirst(order, m)) == Reverse(order)
    ensures order != [] ==> NewestFirst(order, m)[0] == m[order[|order| - 1]]
    ensures |NewestFirst(order, m)| <= Room(cap)
    ensures forall id :: id in m ==> m[id] in NewestFirst(order, m)
  {
    var listing := NewestFirst(order, m);
    forall k | 0 <= k < |order|
      ensures Ids(listing)[k] == Reverse(order)[k]
    {
      ReverseAt(order, k);
    }
    forall id | id in m
      ensures m[id] in listing
    {
      var j :| 0 <= j < |order| && order[j] == id;
      assert listing[|order| - 1 - j] == m[id];
    }
  }

  /** The point lookup of `view_id` in the map. */
  function Lookup(m: map<int, RequestInfo>, id: int): Option<RequestInfo>
  {
    if id in m then Some(m[id]) else None
  }

  /** The lookup of an optional `view_id`: nothing to look up when it is absent. */
  function Find(m: map<int, RequestInfo>, viewId: Option<int>): Option<RequestInfo>
  {
    if viewId.Some? then Lookup(m, viewId.value) else None
  }

  /**
   * For a store in sync, the lookup succeeds exactly for the retained ids,
   * and what it finds carries that id and is one of the listed records.
   */
  lemma LookupFindsRetained(order: seq<int>, m: map<int, RequestInfo>, cap: int, id: int)
    requires InSync(order, m, cap)
    ensures Lookup(m, id).Some? <==> id in order
    ensures Lookup(m, id).Some? ==> Lookup(m, id).value.id == id && Lookup(m, id).value in NewestFirst(order, m)
  {
    ListingIsReversedOrder(order, m, cap);
  }

  /** The request shown in detail: the one found, else the first of the listing, else none. */
  function Select(found: Option<RequestInfo>, listing: seq<RequestInfo>): Option<RequestInfo>
  {
    if found.Some? then found
    else if |listing| > 0 then Some(listing[0])
    else None
  }

  /**
   * The three cases of the selection over a store in sync: a retained
   * `view_id` selects its record; otherwise the newest record is selected;
   * nothing is selected exactly when the store is empty. What is selected
   * is always one of the listed records.
   */
  lemma SelectionCases(order: seq<int>, m: map<int, RequestInfo>, cap: int, viewId: Option<int>)
    requires InSync(order, m, cap)
    ensures viewId.Some? && viewId.value in m ==>
              Select(Find(m, viewId), NewestFirst(order, m)) == Some(m[viewId.value])
    ensures !(viewId.Some? && viewId.value in m) && order != [] ==>
              Select(Find(m, viewId), NewestFirst(order, m)) == Some(m[order[|order| - 1]])
    ensures Select(Find(m, viewId), NewestFirst(order, m)).None? <==> order == []
    ensures Select(Find(m, viewId), NewestFirst(order, m)).Some? ==>
              Select(Find(m, viewId), NewestFirst(order, m)).value in NewestFirst(order, m)
  {
    ListingIsReversedOrder(order, m, cap);
    if order == [] {
      assert m.Keys == {};
    }
  }
}
