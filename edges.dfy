/**
 * Candidate edges of the maze and the priority queue they wait in. An
 * edge joins two adjacent cells (the canonical key of their names), has a
 * random weight and a symbol: "X " while it is a wall, "  " once open.
 */
module Edges {
  import opened Grid

  datatype Edge = Edge(endpoints: Pair, weight: int, symbol: Symbol)

  /** Edge.compareTo: an edge is greater than another when its weight is higher. */
  function CompareTo(e: Edge, other: Edge): (r: int)
    ensures r == -1 || r == 0 || r == 1
    ensures r < 0 <==> e.weight < other.weight
    ensures r > 0 <==> other.weight < e.weight
  {
    if e.weight > other.weight then 1
    else if e.weight < other.weight then -1
    else 0
  }

  /** compareTo is a total preorder: antisymmetric in sign and transitive. */
  lemma CompareToOrder(a: Edge, b: Edge, c: Edge)
    ensures CompareTo(a, b) == -CompareTo(b, a)
    ensures CompareTo(a, b) <= 0 && CompareTo(b, c) <= 0 ==> CompareTo(a, c) <= 0
  {
  }

  /** Edges in nondecreasing weight order. */
  predicate Ascending(s: seq<Edge>)
  {
    forall i, j :: 0 <= i < j < |s| ==> s[i].weight <= s[j].weight
  }

  /** The endpoint keys of a sequence of edges. */
  function Endpoints(s: seq<Edge>): set<Pair>
  {
    set e | e in s :: e.endpoints
  }

  /** The endpoint keys of a sequence of edges, in order. */
  function Keys(s: seq<Edge>): (r: seq<Pair>)
    ensures |r| == |s| && forall i :: 0 <= i < |s| ==> r[i] == s[i].endpoints
  {
    seq(|s|, i requires 0 <= i < |s| => s[i].endpoints)
  }

  lemma EndpointsAppend(s: seq<Edge>, e: Edge)
    ensures Endpoints(s + [e]) == Endpoints(s) + {e.endpoints}
  {
    assert forall f :: f in s + [e] <==> f in s || f == e;
  }

  lemma KeysAppend(s: seq<Edge>, e: Edge)
    ensures Keys(s + [e]) == Keys(s) + [e.endpoints]
  {
  }

  /** The endpoints of the edge at position i. */
  function KeyAt(s: seq<Edge>, i: nat): Pair
    requires i < |s|
  {
    s[i].endpoints
  }

  /** No two edges share their endpoints. */
  predicate UniqueKeys(s: seq<Edge>)
  {
    forall i, j :: 0 <= i < j < |s| ==> KeyAt(s, i) != KeyAt(s, j)
  }

  /** The sequence s without its element at position k, read position by position. */
  lemma RemovedAt(s: seq<Edge>, k: nat)
    requires k < |s|
    ensures var r := s[..k] + s[k + 1..];
      |r| == |s| - 1 && forall i :: 0 <= i < |r| ==> r[i] == if i < k then s[i] else s[i + 1]
  {
  }

  /** Removing an edge keeps the keys of the others distinct. */
  lemma RemoveUnique(s: seq<Edge>, k: nat)
    requires UniqueKeys(s) && k < |s|
    ensures UniqueKeys(s[..k] + s[k + 1..])
  {
    var r := s[..k] + s[k + 1..];
    RemovedAt(s, k);
    forall i, j | 0 <= i < j < |r|
      ensures KeyAt(r, i) != KeyAt(r, j)
    {
      var i', j' := if i < k then i else i + 1, if j < k then j else j + 1;
      assert KeyAt(r, i) == KeyAt(s, i') && KeyAt(r, j) == KeyAt(s, j');
    }
  }

  /** What is left after removing an edge comes from s and does not carry the removed key. */
  lemma RemoveKept(s: seq<Edge>, k: nat)
    requires UniqueKeys(s) && k < |s|
    ensures forall e :: e in s[..k] + s[k + 1..] ==> e in s && e.endpoints != s[k].endpoints
  {
    var r := s[..k] + s[k + 1..];
    RemovedAt(s, k);
    forall e | e in r
      ensures e in s && e.endpoints != s[k].endpoints
    {
      var i :| 0 <= i < |r| && r[i] == e;
      var i' := if i < k then i else i + 1;
      assert KeyAt(s, i') == e.endpoints;
      if i' < k {
        assert KeyAt(s, i') != KeyAt(s, k);
      } else {
        assert KeyAt(s, k) != KeyAt(s, i');
      }
    }
  }

  /** Every other key of s is still there after removing the edge at k. */
  lemma RemoveCovers(s: seq<Edge>, k: nat)
    requires k < |s|
    ensures Endpoints(s) - {s[k].endpoints} <= Endpoints(s[..k] + s[k + 1..])
  {
    var r := s[..k] + s[k + 1..];
    RemovedAt(s, k);
    forall p | p in Endpoints(s) - {s[k].endpoints}
      ensures p in Endpoints(r)
    {
      var e :| e in s && e.endpoints == p;
      var i :| 0 <= i < |s| && s[i] == e;
      assert e == if i < k then r[i] else r[i - 1];
    }
  }

  /** Removing an edge whose key no other edge shares removes exactly that key. */
  lemma RemoveEndpoints(s: seq<Edge>, k: nat)
    requires UniqueKeys(s) && k < |s|
    ensures var r := s[..k] + s[k + 1..];
      && Endpoints(r) == Endpoints(s) - {s[k].endpoints}
      && (forall f :: f in r ==> f in s)
  {
    RemoveKept(s, k);
    RemoveCovers(s, k);
  }

  /**
   * Removing the edge at position k of a sequence whose edges have distinct
   * endpoints removes exactly its key.
   */
  lemma RemoveAt(s: seq<Edge>, k: nat)
    requires UniqueKeys(s) && k < |s|
    ensures var r := s[..k] + s[k + 1..];
      && UniqueKeys(r)
      && Endpoints(r) == Endpoints(s) - {s[k].endpoints}
      && (forall f :: f in r ==> f in s)
  {
    RemoveUnique(s, k);
    RemoveEndpoints(s, k);
  }

  /**
   * The queue side of the Kruskal loop: the edges polled so far and the
   * edges still queued together make up the initial queue, the polled ones
   * came out in nondecreasing weight and none is heavier than a queued one.
   */
  ghost predicate Draining(polled: seq<Edge>, items: seq<Edge>, initial: seq<Edge>)
  {
    && UniqueKeys(items)
    && Endpoints(polled) !! Endpoints(items)
    && Endpoints(polled) + Endpoints(items) == Endpoints(initial)
    && multiset(polled) + multiset(items) == multiset(initial)
    && Ascending(polled)
    && Lighter(polled, items)
  }

  lemma DrainStart(initial: seq<Edge>)
    requires UniqueKeys(initial)
    ensures Draining([], initial, initial)
  {
  }

  /** Every polled edge is at most as heavy as every queued one. */
  predicate Lighter(polled: seq<Edge>, items: seq<Edge>)
  {
    forall i, j :: 0 <= i < |polled| && 0 <= j < |items| ==> polled[i].weight <= items[j].weight
  }

  /** Polling the edge at position at moves its key and the edge itself from the queue to the polled edges. */
  lemma PollKeys(polled: seq<Edge>, items: seq<Edge>, e: Edge, at: nat)
    requires UniqueKeys(items) && Endpoints(polled) !! Endpoints(items)
    requires at < |items| && items[at] == e
    ensures var rest, polled' := items[..at] + items[at + 1..], polled + [e];
      && UniqueKeys(rest)
      && e.endpoints in Endpoints(items)
      && Endpoints(polled') !! Endpoints(rest)
      && Endpoints(polled') + Endpoints(rest) == Endpoints(polled) + Endpoints(items)
      && multiset(polled') + multiset(rest) == multiset(polled) + multiset(items)
  {
    var rest, polled' := items[..at] + items[at + 1..], polled + [e];
    RemoveAt(items, at);
    EndpointsAppend(polled, e);
    assert e.endpoints in Endpoints(items);
    assert items == items[..at] + [e] + items[at + 1..];
    assert multiset(items) == multiset(rest) + multiset{e};
  }

  /** Polling a lightest edge keeps the polled edges in nondecreasing order and lighter than the queue. */
  lemma PollOrder(polled: seq<Edge>, items: seq<Edge>, e: Edge, at: nat)
    requires Ascending(polled) && Lighter(polled, items)
    requires at < |items| && items[at] == e
    requires forall f :: f in items ==> CompareTo(e, f) <= 0
    ensures var rest, polled' := items[..at] + items[at + 1..], polled + [e];
      Ascending(polled') && Lighter(polled', rest)
  {
    var rest, polled' := items[..at] + items[at + 1..], polled + [e];
    forall i, j | 0 <= i < j < |polled'|
      ensures polled'[i].weight <= polled'[j].weight
    {
      if j == |polled| {
        assert polled'[j] == items[at];
      }
    }
    forall i, j | 0 <= i < |polled'| && 0 <= j < |rest|
      ensures polled'[i].weight <= rest[j].weight
    {
      var j' := if j < at then j else j + 1;
      assert rest[j] == items[j'];
      if i == |polled| {
        assert items[j'] in items;
      }
    }
  }

  /**
   * Polling a lightest edge at position at moves it from the queue to the
   * end of the polled edges: its key was not polled before, and the order
   * stays nondecreasing.
   */
  lemma DrainStep(polled: seq<Edge>, items: seq<Edge>, initial: seq<Edge>, e: Edge, at: nat)
    requires Draining(polled, items, initial)
    requires at < |items| && items[at] == e
    requires forall f :: f in items ==> CompareTo(e, f) <= 0
    ensures e.endpoints in Endpoints(initial) && e.endpoints !in Endpoints(polled)
    ensures Draining(polled + [e], items[..at] + items[at + 1..], initial)
  {
    PollKeys(polled, items, e, at);
    PollOrder(polled, items, e, at);
  }

  /** Once the queue is empty, every initial edge has been polled. */
  lemma Drained(polled: seq<Edge>, initial: seq<Edge>)
    requires Draining(polled, [], initial)
    ensures Endpoints(polled) == Endpoints(initial) && multiset(polled) == multiset(initial)
  {
    assert Endpoints([]) == {};
  }

  /** The position of a lightest edge of a nonempty sequence. */
  function Lightest(s: seq<Edge>): (k: nat)
    requires s != []
    ensures k < |s| && forall j :: 0 <= j < |s| ==> s[k].weight <= s[j].weight
  {
    if |s| == 1 then 0
    else
      var k' := Lightest(s[1..]);
      if s[0].weight <= s[1 + k'].weight then 0 else 1 + k'
  }

  /**
   * The PriorityQueue<Edge>: poll removes an edge of least weight. Among
   * edges of equal weight any one may come out first.
   */
  class EdgeQueue {
    var items: seq<Edge>

    constructor ()
      ensures items == []
    {
      items := [];
    }

    method Add(e: Edge)
      modifies this
      ensures items == old(items) + [e]
    {
      items := items + [e];
    }

    method IsEmpty() returns (b: bool)
      ensures b <==> items == []
    {
      b := items == [];
    }

    method Poll() returns (e: Edge)
      requires items != []
      modifies this
      ensures forall f :: f in old(items) ==> CompareTo(e, f) <= 0
      ensures exists k :: 0 <= k < |old(items)| && old(items)[k] == e && items == old(items)[..k] + old(items)[k + 1..]
      ensures multiset(items) + multiset{e} == multiset(old(items))
    {
      var k := Lightest(items);
      e := items[k];
      assert items == items[..k] + [e] + items[k + 1..];
      items := items[..k] + items[k + 1..];
    }
  }
}
