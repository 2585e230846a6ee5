/**
 * What one insert does to the store (main.go:133-142), stated on values:
 * the id order and the id-to-record map before and after, for a limit
 * `cap` that, like the source's `maxRequests`, may be any integer.
 */
module Admission {
  import opened Requests

  /** How many records a limit of `cap` leaves room for; a limit of zero or less leaves none. */
  function Room(cap: int): nat
  {
    if cap > 0 then cap else 0
  }

  /** How many of `n` inserted ids a store with limit `cap` still holds. */
  function Kept(n: nat, cap: int): nat
  {
    if n <= Room(cap) then n else Room(cap)
  }

  /** The last `k` elements of `s`. */
  function LastN<T>(s: seq<T>, k: nat): seq<T>
    requires k <= |s|
  {
    s[|s| - k..]
  }

  predicate Distinct(s: seq<int>)
  {
    forall i, j :: 0 <= i < j < |s| ==> s[i] != s[j]
  }

  /** The consecutive ids `lo`, ..., `hi - 1`. */
  function Range(lo: int, hi: int): seq<int>
    requires lo <= hi
  {
    seq(hi - lo, i => lo + i)
  }

  /** The id order after an insert: append the id, and if that makes the order longer than the limit, drop its front. */
  function AdmitOrder(order: seq<int>, id: int, cap: int): seq<int>
  {
    var grown := order + [id];
    if |grown| > cap then grown[1..] else grown
  }

  /** The map after an insert: store the record under its id, and on overflow delete the id at the front of the grown order. */
  function AdmitMap(m: map<int, RequestInfo>, order: seq<int>, rec: RequestInfo, cap: int): map<int, RequestInfo>
  {
    var grown := order + [rec.id];
    var stored := m[rec.id := rec];
    if |grown| > cap then stored - {grown[0]} else stored
  }

  /**
   * The order lists each key of the map exactly once, the two have the
   * same size, and every record sits under its own id.
   */
  ghost predicate Mirrors(order: seq<int>, m: map<int, RequestInfo>)
  {
    && Distinct(order)
    && (forall id :: id in m <==> id in order)
    && (forall i :: 0 <= i < |order| ==> order[i] in m)
    && |order| == |m|
    && (forall id :: id in m ==> m[id].id == id)
  }

  /** The store's invariant: the order and the map mirror each other, and their size is within the limit. */
  ghost predicate InSync(order: seq<int>, m: map<int, RequestInfo>, cap: int)
  {
    Mirrors(order, m) && |order| <= Room(cap)
  }

  /** Storing a record under a fresh id and appending that id keeps the two mirrored. */
  lemma MirrorsAfterAppend(order: seq<int>, m: map<int, RequestInfo>, rec: RequestInfo)
    requires Mirrors(order, m)
    requires rec.id !in m
    ensures Mirrors(order + [rec.id], m[rec.id := rec])
  {
  }

  /** Dropping the front id from the order and its record from the map keeps the two mirrored. */
  lemma MirrorsAfterDropFront(order: seq<int>, m: map<int, RequestInfo>)
    requires Mirrors(order, m)
    requires order != []
    ensures Mirrors(order[1..], m - {order[0]})
  {
  }

  /** Inserting a record under a fresh id keeps the order and the map in step and within the limit. */
  lemma AdmitPreservesSync(order: seq<int>, m: map<int, RequestInfo>, rec: RequestInfo, cap: int)
    requires InSync(order, m, cap)
    requires rec.id !in m
    ensures InSync(AdmitOrder(order, rec.id, cap), AdmitMap(m, order, rec, cap), cap)
  {
    MirrorsAfterAppend(order, m, rec);
    var grown := order + [rec.id];
    if |grown| > cap {
      MirrorsAfterDropFront(grown, m[rec.id := rec]);
    }
  }

  /** Below the limit nothing is evicted: every earlier id keeps its place and its record. */
  lemma AdmitBelowLimit(order: seq<int>, m: map<int, RequestInfo>, rec: RequestInfo, cap: int)
    requires InSync(order, m, cap)
    requires rec.id !in m
    requires |order| + 1 <= cap
    ensures AdmitOrder(order, rec.id, cap) == order + [rec.id]
    ensures AdmitMap(m, order, rec, cap).Keys == m.Keys + {rec.id}
    ensures forall id :: id in m ==> AdmitMap(m, order, rec, cap)[id] == m[id]
    ensures AdmitMap(m, order, rec, cap)[rec.id] == rec
  {
  }

  /**
   * At the limit exactly one id is evicted, the oldest: it leaves both the
   * order and the map, every other record stays, and the order becomes the
   * old order without its head, followed by the new id.
   */
  lemma AdmitAtLimit(order: seq<int>, m: map<int, RequestInfo>, rec: RequestInfo, cap: int)
    requires InSync(order, m, cap)
    requires rec.id !in m
    requires 1 <= cap <= |order|
    ensures |order| == cap
    ensures AdmitOrder(order, rec.id, cap) == order[1..] + [rec.id]
    ensures AdmitMap(m, order, rec, cap).Keys == m.Keys - {order[0]} + {rec.id}
    ensures forall id :: id in m && id != order[0] ==> AdmitMap(m, order, rec, cap)[id] == m[id]
    ensures AdmitMap(m, order, rec, cap)[rec.id] == rec
  {
    assert order[0] in order;
  }

  /** With a limit of zero or less the store stays empty: each insert evicts the record it just stored. */
  lemma AdmitWithoutRoom(order: seq<int>, m: map<int, RequestInfo>, rec: RequestInfo, cap: int)
    requires InSync(order, m, cap)
    requires cap <= 0
    ensures AdmitOrder(order, rec.id, cap) == []
    ensures AdmitMap(m, order, rec, cap) == map[]
  {
    assert order == [];
    assert m == map[];
  }

  /** With a positive limit the new id ends the order and its record is stored under it. */
  lemma AdmitKeepsNewRecord(order: seq<int>, m: map<int, RequestInfo>, rec: RequestInfo, cap: int)
    requires rec.id !in order
    requires cap >= 1
    ensures var order' := AdmitOrder(order, rec.id, cap); |order'| > 0 && order'[|order'| - 1] == rec.id
    ensures rec.id in AdmitMap(m, order, rec, cap) && AdmitMap(m, order, rec, cap)[rec.id] == rec
  {
    if order != [] {
      assert (order + [rec.id])[0] == order[0];
    }
  }

  /**
   * If the order is the retained tail of an insertion history, one more
   * insert leaves the retained tail of the history extended by that id.
   */
  lemma AdmitRetainsTail(history: seq<int>, id: int, cap: int)
    ensures AdmitOrder(LastN(history, Kept(|history|, cap)), id, cap)
         == LastN(history + [id], Kept(|history| + 1, cap))
  {
    var k := Kept(|history|, cap);
    var extended := history + [id];
    assert LastN(history, k) + [id] == extended[|extended| - (k + 1)..];
  }

  /**
   * Eviction is permanent: an id of the history that is no longer retained
   * is not retained after any further inserts of other ids.
   */
  lemma {:induction false} EvictedNeverReturns(history: seq<int>, later: seq<int>, cap: int, p: nat)
    requires Distinct(history + later)
    requires p < |history| - Kept(|history|, cap)
    ensures history[p] !in LastN(history + later, Kept(|history| + |later|, cap))
  {
    var all := history + later;
    var start := |all| - Kept(|all|, cap);
    assert p < start;
    assert forall j :: 0 <= j < |all| - start ==> all[start..][j] != all[p];
  }

  /** The id order after inserting `ids` one after another. */
  function AdmitAll(order: seq<int>, ids: seq<int>, cap: int): seq<int>
    decreases |ids|
  {
    if ids == [] then order else AdmitAll(AdmitOrder(order, ids[0], cap), ids[1..], cap)
  }

  /** Any run of inserts keeps exactly the last min(N, C) ids of the whole history, in insertion order. */
  lemma {:induction false} AdmitAllRetainsTail(history: seq<int>, ids: seq<int>, cap: int)
    ensures AdmitAll(LastN(history, Kept(|history|, cap)), ids, cap)
         == LastN(history + ids, Kept(|history| + |ids|, cap))
    decreases |ids|
  {
    if ids != [] {
      var longer := history + [ids[0]];
      AdmitRetainsTail(history, ids[0], cap);
      AdmitAllRetainsTail(longer, ids[1..], cap);
      assert longer + ids[1..] == history + ids;
      assert |longer| + |ids[1..]| == |history| + |ids|;
    }
  }

  /** Inserting ids 0, ..., N-1 into an empty store keeps exactly N-min(N, C), ..., N-1, in increasing order. */
  lemma FifoKeepsNewest(n: nat, cap: int)
    ensures AdmitAll([], Range(0, n), cap) == Range(n - Kept(n, cap), n)
    ensures var kept := AdmitAll([], Range(0, n), cap);
              forall i, j :: 0 <= i < j < |kept| ==> kept[i] < kept[j]
  {
    AdmitAllFromEmpty(Range(0, n), cap);
    TailOfRange(n, Kept(n, cap));
  }

  /** From an empty store, a run of inserts keeps the last min(N, C) ids of the run. */
  lemma AdmitAllFromEmpty(ids: seq<int>, cap: int)
    ensures AdmitAll([], ids, cap) == LastN(ids, Kept(|ids|, cap))
  {
    var empty: seq<int> := [];
    assert LastN(empty, Kept(0, cap)) == [];
    AdmitAllRetainsTail(empty, ids, cap);
    assert empty + ids == ids;
  }

  lemma TailOfRange(n: nat, k: nat)
    requires k <= n
    ensures LastN(Range(0, n), k) == Range(n - k, n)
  {
    assert forall i :: 0 <= i < k ==> LastN(Range(0, n), k)[i] == n - k + i;
  }
}
