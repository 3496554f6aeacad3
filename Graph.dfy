/** The station graph of `rebalancing_algo/graph.py`: the station store, the
    top-k nearest-neighbour query over a bounded heap, the neighbour cache and
    the unit transfer between two stations.

    Coordinates are integers (degrees scaled by a fixed factor), so distances
    are exact. */
module StationGraph {
  import opened Options
  import opened Ordering

  /** `(lat, lon, name)` as the store keeps it. */
  datatype Station = Station(lat: int, lon: int, name: string)

  /** What the store's default factory produces for an unknown id. */
  const DefaultStation := Station(0, 0, "")

  function Abs(x: int): nat
  {
    if x < 0 then -x else x
  }

  /** Manhattan distance in raw coordinate units. */
  function Distance(a: Station, b: Station): nat
  {
    Abs(a.lat - b.lat) + Abs(a.lon - b.lon)
  }

  function Min(a: int, b: int): int
  {
    if a < b then a else b
  }

  function Max(a: int, b: int): int
  {
    if a < b then b else a
  }

  /** A Python dict from station id to station: its entries and the order in
      which its keys were first inserted, which is the order it iterates in. */
  datatype StationMap = StationMap(entries: map<string, Station>, order: seq<string>)
  {
    ghost predicate Valid()
    {
      && NoDup(order)
      && (forall id :: id in order <==> id in entries)
      && |order| == |entries|
    }

    /** `d[id] = st`: a new key goes last, an existing key keeps its place. */
    function Put(id: string, st: Station): (m: StationMap)
      requires Valid()
      ensures m.Valid()
      ensures m.entries == entries[id := st]
      ensures order <= m.order
      ensures id in entries ==> m.order == order
    {
      if id in entries then StationMap(entries[id := st], order)
      else StationMap(entries[id := st], order + [id])
    }

    /** `d[id]` on the defaultdict: an unknown id is first inserted with the
        default station. Returns the store afterwards and the station read. */
    function Lookup(id: string): (r: (StationMap, Station))
      requires Valid()
      ensures r.0.Valid()
      ensures id in r.0.entries && r.1 == r.0.entries[id]
      ensures id in entries ==> r.0 == this
      ensures id !in entries ==> r.1 == DefaultStation && r.0.entries == entries[id := DefaultStation]
      ensures r.0.entries.Keys == entries.Keys + {id}
    {
      if id in entries then (this, entries[id])
      else (Put(id, DefaultStation), DefaultStation)
    }
  }

  const EmptyStationMap := StationMap(map[], [])

  // ---------------------------------------------------------------------
  // Loading a payload (`_fill_nodes`)

  /** One element of `payload["data"]["stations"]`; `None` is a missing key. */
  datatype StationRecord = StationRecord(
    stationId: Option<string>, lat: Option<int>, lon: Option<int>, name: Option<string>)
  {
    predicate WellFormed()
    {
      stationId.Some? && lat.Some? && lon.Some? && name.Some?
    }

    function ToStation(): Station
      requires WellFormed()
    {
      Station(lat.value, lon.value, name.value)
    }
  }

  datatype DataSection = DataSection(stations: Option<seq<StationRecord>>)

  datatype Payload = Payload(data: Option<DataSection>)

  datatype LoadError = InvalidPayloadFormat

  datatype Outcome = Pass | Fail(error: LoadError)

  predicate HasStationList(payload: Payload)
  {
    payload.data.Some? && payload.data.value.stations.Some?
  }

  /** `_fill_nodes` completes without raising. */
  predicate PayloadWellFormed(payload: Payload)
  {
    HasStationList(payload)
    && forall r :: r in payload.data.value.stations.value ==> r.WellFormed()
  }

  /** Index of the first record missing a field, or the length when none is. */
  function FirstMalformed(rows: seq<StationRecord>): (n: nat)
    ensures n <= |rows|
    ensures forall j :: 0 <= j < n ==> rows[j].WellFormed()
    ensures n < |rows| ==> !rows[n].WellFormed()
  {
    if rows == [] || !rows[0].WellFormed() then 0
    else 1 + FirstMalformed(rows[1..])
  }

  /** The store after writing the well-formed records `rows` in order. */
  function StoreAll(m: StationMap, rows: seq<StationRecord>): (r: StationMap)
    requires m.Valid()
    requires forall j {:trigger rows[j]} :: 0 <= j < |rows| ==> rows[j].WellFormed()
    ensures r.Valid()
    ensures m.order <= r.order
    decreases |rows|
  {
    if rows == [] then m
    else
      var last := rows[|rows| - 1];
      assert last.WellFormed();
      StoreAll(m, rows[..|rows| - 1]).Put(last.stationId.value, last.ToStation())
  }

  /** The store after `_fill_nodes(payload)`, whether or not it raised: the
      records before the first malformed one stay written. */
  function Filled(m: StationMap, payload: Payload): StationMap
    requires m.Valid()
  {
    if !HasStationList(payload) then m
    else
      var rows := payload.data.value.stations.value;
      StoreAll(m, rows[..FirstMalformed(rows)])
  }

  /** Keys that no record names keep their presence and their station. */
  lemma {:induction false} StoreAllUntouched(m: StationMap, rows: seq<StationRecord>, id: string)
    requires m.Valid()
    requires forall j {:trigger rows[j]} :: 0 <= j < |rows| ==> rows[j].WellFormed()
    requires forall j :: 0 <= j < |rows| ==> rows[j].stationId != Some(id)
    ensures id in StoreAll(m, rows).entries <==> id in m.entries
    ensures id in m.entries ==> StoreAll(m, rows).entries[id] == m.entries[id]
    decreases |rows|
  {
    if rows != [] {
      StoreAllUntouched(m, rows[..|rows| - 1], id);
    }
  }

  /** A later record with the same id overwrites an earlier one: the store
      holds the station of the last record naming each id. */
  lemma {:induction false} StoreAllLastWins(m: StationMap, rows: seq<StationRecord>, j: int, id: string)
    requires m.Valid()
    requires forall i {:trigger rows[i]} :: 0 <= i < |rows| ==> rows[i].WellFormed()
    requires 0 <= j < |rows| && rows[j].stationId == Some(id)
    requires forall i :: j < i < |rows| ==> rows[i].stationId != Some(id)
    ensures id in StoreAll(m, rows).entries
    ensures StoreAll(m, rows).entries[id] == rows[j].ToStation()
    decreases |rows|
  {
    if j < |rows| - 1 {
      StoreAllLastWins(m, rows[..|rows| - 1], j, id);
    }
  }

  // ---------------------------------------------------------------------
  // The top-k query (`get_distances`)

  /** The result entry `(distance, id)` for station `id` seen from `target`. */
  function Neighbor(entries: map<string, Station>, target: string, id: string): Entry
    requires target in entries && id in entries
  {
    (Distance(entries[target], entries[id]), id)
  }

  /** The heap entry `(-distance, id)` the query pushes for station `id`. */
  function HeapItem(entries: map<string, Station>, target: string, id: string): Entry
    requires target in entries && id in entries
  {
    (-(Distance(entries[target], entries[id]) as int), id)
  }

  /** `e` is kept over `c` by the bounded heap: it is closer, or as close with
      the larger id (the heap evicts its smallest `(-distance, id)`). */
  predicate Outranks(e: Entry, c: Entry)
  {
    e.0 < c.0 || (e.0 == c.0 && StrLess(c.1, e.1))
  }

  /** What the query returns, stated over the set of stations alone:
      strictly ascending by `(distance, id)`, never the target, true distances,
      `min(k, n - 1)` entries, and no omitted station outranks a kept one. */
  ghost predicate IsNearest(entries: map<string, Station>, target: string, k: int, r: seq<Entry>)
    requires target in entries
  {
    && StrictlySorted(r)
    && (forall e :: e in r ==>
          e.1 in entries && e.1 != target && e.0 == Distance(entries[target], entries[e.1]))
    && |r| == Min(Max(k, 0), |entries| - 1)
    && (forall e, id :: e in r && id in entries && id != target && Neighbor(entries, target, id) !in r ==>
          Outranks(e, Neighbor(entries, target, id)))
  }

  /** The heap entries offered by the first `n` stations in dict order, the
      target skipped. */
  ghost function Offered(nodes: StationMap, target: string, n: nat): seq<Entry>
    requires nodes.Valid() && target in nodes.entries && n <= |nodes.order|
  {
    if n == 0 then []
    else
      var id := nodes.order[n - 1];
      assert id in nodes.order;
      Offered(nodes, target, n - 1) + (if id == target then [] else [HeapItem(nodes.entries, target, id)])
  }

  /** Each offered entry is the heap entry of a non-target station among the
      first `n`. */
  lemma {:induction false} OfferedMembers(nodes: StationMap, target: string, n: nat)
    requires nodes.Valid() && target in nodes.entries && n <= |nodes.order|
    ensures forall x :: x in Offered(nodes, target, n) ==>
              x.1 in nodes.order[..n] && x.1 != target && x == HeapItem(nodes.entries, target, x.1)
  {
    if n > 0 {
      OfferedMembers(nodes, target, n - 1);
      assert nodes.order[..n] == nodes.order[..n - 1] + [nodes.order[n - 1]];
    }
  }

  /** Every non-target station among the first `n` offers its heap entry. */
  lemma {:induction false} OfferedCovers(nodes: StationMap, target: string, n: nat, j: int)
    requires nodes.Valid() && target in nodes.entries && n <= |nodes.order|
    requires 0 <= j < n && nodes.order[j] != target
    ensures nodes.order[j] in nodes.entries
    ensures HeapItem(nodes.entries, target, nodes.order[j]) in Offered(nodes, target, n)
  {
    assert nodes.order[j] in nodes.order;
    if j < n - 1 {
      OfferedCovers(nodes, target, n - 1, j);
    }
  }

  /** All stations but the target offer an entry. */
  lemma {:induction false} OfferedLength(nodes: StationMap, target: string, n: nat)
    requires nodes.Valid() && target in nodes.entries && n <= |nodes.order|
    ensures |Offered(nodes, target, n)| == n - (if target in nodes.order[..n] then 1 else 0)
  {
    if n > 0 {
      OfferedLength(nodes, target, n - 1);
      assert nodes.order[..n] == nodes.order[..n - 1] + [nodes.order[n - 1]];
    }
  }

  /** Every heap entry is larger than every offered entry left out of the heap. */
  ghost predicate KeepsLargest(heap: seq<Entry>, offered: seq<Entry>)
  {
    forall x, y :: x in heap && y in offered && y !in heap ==> TupleLess(y, x)
  }

  /** Index of a smallest heap entry: where `heapq` keeps it, at the root. */
  method SmallestIndex(heap: seq<Entry>) returns (m: nat)
    requires heap != []
    ensures m < |heap|
    ensures forall j :: 0 <= j < |heap| ==> !TupleLess(heap[j], heap[m])
  {
    m := 0;
    TupleLessIrreflexive(heap[0]);
    for i := 1 to |heap|
      invariant m < i
      invariant forall j :: 0 <= j < i ==> !TupleLess(heap[j], heap[m])
    {
      if TupleLess(heap[i], heap[m]) {
        forall j | 0 <= j < i {
          TupleLessTransitive(heap[j], heap[i], heap[m]);
        }
        TupleLessIrreflexive(heap[i]);
        m := i;
      }
    }
  }

  /** `heappushpop(heap, item)` when `heap` is full: the smallest of the heap
      and `item` is dropped, so the heap still holds the largest entries. */
  lemma PushPopKeepsLargest(heap: seq<Entry>, offered: seq<Entry>, item: Entry, m: int)
    requires NoDup(heap) && item !in heap
    requires 0 <= m < |heap|
    requires forall j :: 0 <= j < |heap| ==> !TupleLess(heap[j], heap[m])
    requires KeepsLargest(heap, offered)
    ensures TupleLess(heap[m], item) ==> KeepsLargest(heap[m := item], offered + [item])
    ensures !TupleLess(heap[m], item) ==> KeepsLargest(heap, offered + [item])
  {
    var evicted := heap[m];
    if TupleLess(evicted, item) {
      var h := heap[m := item];
      forall x, y | x in h && y in offered + [item] && y !in h
        ensures TupleLess(y, x)
      {
        var a :| 0 <= a < |h| && h[a] == x;
        assert y != item by { assert h[m] == item; }
        assert y in offered;
        assert y == evicted || y !in heap by {
          if y in heap {
            var b :| 0 <= b < |heap| && heap[b] == y;
            assert b == m by { assert h[b] == heap[b] || b == m; }
          }
        }
        if a == m {
          TupleLessTransitive(y, evicted, item);
        } else {
          assert x == heap[a];
          TupleLessTotal(evicted, x);
        }
      }
    } else {
      TupleLessTotal(evicted, item);
      forall x, y | x in heap && y in offered + [item] && y !in heap
        ensures TupleLess(y, x)
      {
        if y == item {
          var a :| 0 <= a < |heap| && heap[a] == x;
          TupleLessTotal(evicted, x);
          TupleLessTransitive(item, evicted, x);
        }
      }
    }
  }

  /** The loop invariant of `SelectNearest` after the stations that offered
      `offered`: a duplicate-free heap of `min(k, |offered|)` offered entries,
      larger than every offered entry it left out. */
  ghost predicate BoundedHeap(heap: seq<Entry>, offered: seq<Entry>, k: int)
  {
    && NoDup(heap)
    && (forall x :: x in heap ==> x in offered)
    && |heap| == Min(Max(k, 0), |offered|)
    && (|heap| < k ==> forall y :: y in offered ==> y in heap)
    && KeepsLargest(heap, offered)
  }

  /** `heappush` while the heap holds fewer than `k` entries. */
  lemma PushKeepsBounded(heap: seq<Entry>, offered: seq<Entry>, item: Entry, k: int)
    requires BoundedHeap(heap, offered, k) && item !in offered && |heap| < k
    ensures BoundedHeap(heap + [item], offered + [item], k)
  {
    var h := heap + [item];
    forall i, j | 0 <= i < j < |h|
      ensures h[i] != h[j]
    {
      if j == |heap| {
        assert h[i] in heap;
      } else {
        assert h[i] == heap[i] && h[j] == heap[j];
      }
    }
  }

  /** `heappushpop` once the heap holds `k` entries. */
  lemma PushPopKeepsBounded(heap: seq<Entry>, offered: seq<Entry>, item: Entry, k: int, m: int)
    requires BoundedHeap(heap, offered, k) && item !in offered && k <= |heap|
    requires 0 <= m < |heap|
    requires forall j :: 0 <= j < |heap| ==> !TupleLess(heap[j], heap[m])
    ensures BoundedHeap(if TupleLess(heap[m], item) then heap[m := item] else heap, offered + [item], k)
  {
    PushPopKeepsLargest(heap, offered, item, m);
    if TupleLess(heap[m], item) {
      var h := heap[m := item];
      forall i, j | 0 <= i < j < |h|
        ensures h[i] != h[j]
      {
        if i != m && j != m {
          assert h[i] == heap[i] && h[j] == heap[j];
        }
      }
      forall x | x in h
        ensures x in offered + [item]
      {
        var a :| 0 <= a < |h| && h[a] == x;
        if a != m {
          assert x == heap[a];
        }
      }
    }
  }

  /** One step of the heap loop: `heappush` while the heap holds fewer than
      `k` entries, `heappushpop` (dropping the smallest) once it is full, and
      nothing when `k <= 0`. The heap stays the largest `min(k, n)` offered
      entries. */
  method Offer(heap: seq<Entry>, item: Entry, k: int, ghost offered: seq<Entry>) returns (r: seq<Entry>)
    requires BoundedHeap(heap, offered, k) && item !in offered
    ensures BoundedHeap(r, offered + [item], k)
    ensures |heap| < k ==> r == heap + [item]
    ensures k <= |heap| && r != heap ==>
              exists m :: 0 <= m < |heap| && r[m] == item && r == heap[m := item] &&
                TupleLess(heap[m], item) && forall j :: 0 <= j < |heap| ==> !TupleLess(heap[j], heap[m])
  {
    if |heap| < k {
      PushKeepsBounded(heap, offered, item, k);
      r := heap + [item];
    } else if heap != [] {
      var m := SmallestIndex(heap);
      PushPopKeepsBounded(heap, offered, item, k, m);
      if TupleLess(heap[m], item) {
        r := heap[m := item];
        assert r[m] == item;
      } else {
        r := heap;
      }
    } else {
      r := heap;
    }
  }

  /** `get_distances` after the target lookup: one pass over the stations in
      dict order keeps at most `k` entries `(-distance, id)` in a heap (pushing
      until it is full, then pushing and popping the smallest); the survivors
      are returned as `(distance, id)`, sorted. The heap is modelled by its
      contents; the binary-heap layout inside the list is not. */
  method SelectNearest(nodes: StationMap, target: string, k: int) returns (result: seq<Entry>)
    requires nodes.Valid() && target in nodes.entries
    ensures IsNearest(nodes.entries, target, k, result)
  {
    var origin := nodes.entries[target];
    var ids := nodes.order;
    var heap: seq<Entry> := [];
    ghost var offered: seq<Entry> := [];
    for i := 0 to |ids|
      invariant offered == Offered(nodes, target, i)
      invariant BoundedHeap(heap, offered, k)
    {
      var newId := ids[i];
      OfferedStep(nodes, target, i);
      if newId != target {
        var distance: int := Distance(origin, nodes.entries[newId]);
        var item := (-distance, newId);
        heap := Offer(heap, item, k, offered);
        offered := offered + [item];
      }
    }
    result := Sort(Negated(heap));
    OfferedIsAll(nodes, target);
    HeapGivesNearest(nodes.entries, target, k, heap, offered);
  }

  /** The station at position `i` adds its heap entry, not offered before,
      unless it is the target. */
  lemma OfferedStep(nodes: StationMap, target: string, i: int)
    requires nodes.Valid() && target in nodes.entries && 0 <= i < |nodes.order|
    ensures nodes.order[i] in nodes.entries
    ensures nodes.order[i] == target ==> Offered(nodes, target, i + 1) == Offered(nodes, target, i)
    ensures nodes.order[i] != target ==>
              HeapItem(nodes.entries, target, nodes.order[i]) !in Offered(nodes, target, i) &&
              Offered(nodes, target, i + 1) ==
                Offered(nodes, target, i) + [HeapItem(nodes.entries, target, nodes.order[i])]
  {
    assert nodes.order[i] in nodes.order;
    OfferedMembers(nodes, target, i);
    assert nodes.order[i] !in nodes.order[..i];
  }

  /** The list comprehension `(-dist, id) for dist, id in heap`. */
  function Negated(heap: seq<Entry>): seq<Entry>
  {
    seq(|heap|, i requires 0 <= i < |heap| => (-heap[i].0, heap[i].1))
  }

  lemma NegatedNoDup(heap: seq<Entry>)
    requires NoDup(heap)
    ensures NoDup(Negated(heap))
  {
    var negated := Negated(heap);
    forall i, j | 0 <= i < j < |negated|
      ensures negated[i] != negated[j]
    {
      assert heap[i] != heap[j];
    }
  }

  lemma NegatedMembers(heap: seq<Entry>, e: Entry)
    ensures e in Negated(heap) <==> (-e.0, e.1) in heap
  {
    if (-e.0, e.1) in heap {
      var i :| 0 <= i < |heap| && heap[i] == (-e.0, e.1);
      assert Negated(heap)[i] == e;
    }
  }

  /** An entry is in the sorted, negated heap exactly when its negation is
      in the heap. */
  lemma SortedNegationMember(heap: seq<Entry>, e: Entry)
    ensures e in Sort(Negated(heap)) <==> (-e.0, e.1) in heap
  {
    assert e in Sort(Negated(heap)) <==> e in multiset(Negated(heap));
    NegatedMembers(heap, e);
  }

  /** Sorting the negated heap gives a strictly ascending list of the negated
      heap entries. */
  lemma SortedNegation(heap: seq<Entry>)
    requires NoDup(heap)
    ensures StrictlySorted(Sort(Negated(heap)))
    ensures |Sort(Negated(heap))| == |heap|
    ensures forall e :: e in Sort(Negated(heap)) ==> (-e.0, e.1) in heap
  {
    var negated := Negated(heap);
    var r := Sort(negated);
    NegatedNoDup(heap);
    PermutationNoDup(negated, r);
    SortedNoDupIsStrict(r);
    forall e | e in r
      ensures (-e.0, e.1) in heap
    {
      SortedNegationMember(heap, e);
    }
    assert |r| == |heap| by {
      assert |multiset(r)| == |multiset(negated)|;
    }
  }

  /** An entry the bounded heap kept outranks one it was offered and dropped. */
  lemma KeptOutranksDropped(heap: seq<Entry>, offered: seq<Entry>, e: Entry, c: Entry)
    requires KeepsLargest(heap, offered)
    requires (-e.0, e.1) in heap && (-c.0, c.1) in offered && (-c.0, c.1) !in heap
    ensures Outranks(e, c)
  {
  }

  /** `offered` holds exactly one heap entry per station other than the target. */
  ghost predicate OffersAll(entries: map<string, Station>, target: string, offered: seq<Entry>)
    requires target in entries
  {
    && (forall x :: x in offered ==>
          x.1 in entries && x.1 != target && x == HeapItem(entries, target, x.1))
    && (forall id :: id in entries && id != target ==> HeapItem(entries, target, id) in offered)
    && |offered| == |entries| - 1
  }

  /** One pass over all stations offers every station but the target once. */
  lemma OfferedIsAll(nodes: StationMap, target: string)
    requires nodes.Valid() && target in nodes.entries
    ensures OffersAll(nodes.entries, target, Offered(nodes, target, |nodes.order|))
  {
    var n := |nodes.order|;
    OfferedMembers(nodes, target, n);
    OfferedLength(nodes, target, n);
    assert nodes.order[..n] == nodes.order;
    forall id | id in nodes.entries && id != target
      ensures HeapItem(nodes.entries, target, id) in Offered(nodes, target, n)
    {
      assert id in nodes.order;
      var j :| 0 <= j < n && nodes.order[j] == id;
      OfferedCovers(nodes, target, n, j);
    }
  }

  /** The stations in the sorted, negated heap are true, non-target neighbours. */
  lemma ResultEntries(entries: map<string, Station>, target: string, heap: seq<Entry>, offered: seq<Entry>)
    requires target in entries && OffersAll(entries, target, offered)
    requires forall x :: x in heap ==> x in offered
    ensures forall e :: e in Sort(Negated(heap)) ==>
              e.1 in entries && e.1 != target && e.0 == Distance(entries[target], entries[e.1])
  {
    forall e | e in Sort(Negated(heap))
      ensures e.1 in entries && e.1 != target && e.0 == Distance(entries[target], entries[e.1])
    {
      SortedNegationMember(heap, e);
      assert (-e.0, e.1) in offered;
    }
  }

  /** A station the result leaves out is outranked by every station it keeps. */
  lemma ResultOutranks(entries: map<string, Station>, target: string, heap: seq<Entry>, offered: seq<Entry>)
    requires target in entries && OffersAll(entries, target, offered)
    requires KeepsLargest(heap, offered)
    ensures forall e, id ::
              (e in Sort(Negated(heap)) && id in entries && id != target &&
               Neighbor(entries, target, id) !in Sort(Negated(heap))) ==>
              Outranks(e, Neighbor(entries, target, id))
  {
    var r := Sort(Negated(heap));
    forall e, id | e in r && id in entries && id != target && Neighbor(entries, target, id) !in r
      ensures Outranks(e, Neighbor(entries, target, id))
    {
      var c := Neighbor(entries, target, id);
      assert (-c.0, c.1) in offered by {
        assert HeapItem(entries, target, id) in offered;
      }
      SortedNegationMember(heap, e);
      SortedNegationMember(heap, c);
      KeptOutranksDropped(heap, offered, e, c);
    }
  }

  /** What the loop of `SelectNearest` leaves in the heap makes the sorted,
      negated result the nearest stations. */
  lemma HeapGivesNearest(entries: map<string, Station>, target: string, k: int, heap: seq<Entry>, offered: seq<Entry>)
    requires target in entries && OffersAll(entries, target, offered)
    requires BoundedHeap(heap, offered, k)
    ensures IsNearest(entries, target, k, Sort(Negated(heap)))
  {
    SortedNegation(heap);
    ResultEntries(entries, target, heap, offered);
    ResultOutranks(entries, target, heap, offered);
  }

  // ---------------------------------------------------------------------
  // Transfers (`transfer_objects`), over the per-station unit counts

  /** `counts[id]` on a `defaultdict(int)`. */
  function CountOf(counts: map<string, nat>, id: string): nat
  {
    if id in counts then counts[id] else 0
  }

  /** The counts after moving one unit from `startNode` to `targetNode`: the
      source saturates at zero, the target always gains one. */
  function Transferred(counts: map<string, nat>, startNode: string, targetNode: string): (r: map<string, nat>)
    ensures r.Keys == counts.Keys + {startNode, targetNode}
    ensures forall id :: id in counts && id != startNode && id != targetNode ==> r[id] == counts[id]
    ensures startNode != targetNode ==>
              r[targetNode] == CountOf(counts, targetNode) + 1
              && (CountOf(counts, startNode) > 0 ==> r[startNode] == CountOf(counts, startNode) - 1)
              && (CountOf(counts, startNode) == 0 ==> r[startNode] == 0)
    ensures startNode == targetNode ==>
              r[startNode] == (if CountOf(counts, startNode) == 0 then 1 else CountOf(counts, startNode))
  {
    var taken := counts[startNode := Max(CountOf(counts, startNode) - 1, 0)];
    taken[targetNode := CountOf(taken, targetNode) + 1]
  }

  /** Sum of the counts of `ids`. */
  function Total(counts: map<string, nat>, ids: seq<string>): nat
  {
    if ids == [] then 0 else CountOf(counts, ids[0]) + Total(counts, ids[1..])
  }

  lemma {:induction false} TotalAfterUpdate(counts: map<string, nat>, id: string, v: nat, ids: seq<string>)
    requires NoDup(ids)
    ensures Total(counts[id := v], ids)
            == Total(counts, ids) + (if id in ids then v - CountOf(counts, id) else 0)
  {
    if ids != [] {
      TotalAfterUpdate(counts, id, v, ids[1..]);
      assert id in ids <==> id == ids[0] || id in ids[1..];
    }
  }

  /** Over any duplicate-free list of stations naming both ends, a transfer
      keeps the total when the source holds a unit and adds one unit when
      the source is empty. */
  lemma TransferTotal(counts: map<string, nat>, startNode: string, targetNode: string, ids: seq<string>)
    requires NoDup(ids) && startNode in ids && targetNode in ids
    ensures Total(Transferred(counts, startNode, targetNode), ids)
            == Total(counts, ids) + (if CountOf(counts, startNode) == 0 then 1 else 0)
  {
    var taken := counts[startNode := Max(CountOf(counts, startNode) - 1, 0)];
    TotalAfterUpdate(counts, startNode, Max(CountOf(counts, startNode) - 1, 0), ids);
    TotalAfterUpdate(taken, targetNode, CountOf(taken, targetNode) + 1, ids);
  }

  // ---------------------------------------------------------------------
  // The graph object

  class Graph {
    /** `nodes[station_id] = (lat, lon, name)`, in insertion order. */
    var nodes: StationMap
    /** Units held per station, the integer view of `nodes` that
        `transfer_objects` updates. */
    var counts: map<string, nat>
    var k: int
    /** `top_k_neighbors`, a `defaultdict(list)`. */
    var topKNeighbors: map<string, seq<Entry>>

    ghost predicate Valid()
      reads this
    {
      nodes.Valid()
    }

    constructor (topK: int)
      ensures Valid()
      ensures nodes == EmptyStationMap && counts == map[] && k == topK && topKNeighbors == map[]
    {
      nodes := EmptyStationMap;
      counts := map[];
      k := topK;
      topKNeighbors := map[];
    }

    /** `_fill_nodes`: writes each station record in turn and raises
        "Invalid Payload Format" at the first missing key; what was written
        before that stays written. */
    method FillNodes(payload: Payload) returns (outcome: Outcome)
      requires Valid()
      modifies this`nodes
      ensures Valid()
      ensures outcome == (if PayloadWellFormed(payload) then Pass else Fail(InvalidPayloadFormat))
      ensures nodes == Filled(old(nodes), payload)
    {
      if !HasStationList(payload) {
        return Fail(InvalidPayloadFormat);
      }
      var stations := payload.data.value.stations.value;
      ghost var start := nodes;
      ghost var bad := FirstMalformed(stations);
      for i := 0 to |stations|
        invariant i <= bad
        invariant nodes.Valid() && nodes == StoreAll(start, stations[..i])
      {
        var station := stations[i];
        if !station.WellFormed() {
          assert bad == i;
          assert !PayloadWellFormed(payload) by {
            assert station in stations;
          }
          return Fail(InvalidPayloadFormat);
        }
        assert stations[..i + 1][..i] == stations[..i];
        nodes := nodes.Put(station.stationId.value, station.ToStation());
      }
      assert bad == |stations| && stations[..|stations|] == stations;
      return Pass;
    }

    /** `get_top_k_neighbors`: reading an unknown key stores and returns `[]`. */
    method GetTopKNeighbors(targetNode: string) returns (neighbors: seq<Entry>)
      modifies this`topKNeighbors
      ensures targetNode in old(topKNeighbors) ==>
                neighbors == old(topKNeighbors)[targetNode] && topKNeighbors == old(topKNeighbors)
      ensures targetNode !in old(topKNeighbors) ==>
                neighbors == [] && topKNeighbors == old(topKNeighbors)[targetNode := []]
    {
      if targetNode !in topKNeighbors {
        topKNeighbors := topKNeighbors[targetNode := []];
      }
      neighbors := topKNeighbors[targetNode];
    }

    /** `get_distances`: an unknown target is first inserted at the origin;
        then the `k` nearest other stations, by `(distance, id)`. */
    method GetDistances(targetNodeId: string) returns (result: seq<Entry>)
      requires Valid()
      modifies this`nodes
      ensures Valid()
      ensures nodes == old(nodes).Lookup(targetNodeId).0
      ensures targetNodeId in nodes.entries
      ensures IsNearest(nodes.entries, targetNodeId, k, result)
    {
      var looked := nodes.Lookup(targetNodeId);
      nodes := looked.0;
      result := SelectNearest(nodes, targetNodeId, k);
    }

    /** `transfer_objects`: one unit from `startNode` to `targetNode`. */
    method TransferObjects(startNode: string, targetNode: string)
      modifies this`counts
      ensures counts == Transferred(old(counts), startNode, targetNode)
    {
      counts := counts[startNode := Max(CountOf(counts, startNode) - 1, 0)];
      counts := counts[targetNode := CountOf(counts, targetNode) + 1];
    }
  }

  /** The query's answer depends only on the stations, not on the order in
      which the dict yields them: two answers for the same stations agree. */
  lemma NearestIsUnique(entries: map<string, Station>, target: string, k: int, r1: seq<Entry>, r2: seq<Entry>)
    requires target in entries
    requires IsNearest(entries, target, k, r1) && IsNearest(entries, target, k, r2)
    ensures r1 == r2
  {
    forall x | x in r1
      ensures x in r2
    {
      if forall y :: y in r2 ==> y in r1 {
        StrictlySortedSubsetEqual(r2, r1);
      } else {
        var y :| y in r2 && y !in r1;
        assert Neighbor(entries, target, x.1) == x;
        assert Neighbor(entries, target, y.1) == y;
        TupleLessAsymmetric((-y.0, y.1), (-x.0, x.1));
        StrLessIrreflexive(x.1);
        StrLessTotal(x.1, y.1);
        StrLessTransitive(x.1, y.1, x.1);
      }
    }
    StrictlySortedSubsetEqual(r1, r2);
  }
}
