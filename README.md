# Bike-station rebalancing core, modelled in Dafny

This project models the in-memory core of a bike-share rebalancing service
and proves properties of it. The service polls station snapshots, builds a
station graph, and writes per-station counts back onto the snapshot table.
Three pieces of the program are modelled:

- **The station graph** (`rebalancing_algo/graph.py`, module `StationGraph` in
  `Graph.dfy`). The `Graph` class keeps the station store `nodes`, a
  `defaultdict` from station id to `(lat, lon, name)`. It has four operations:
  - `_fill_nodes` loads the store from a JSON payload.
  - `get_distances` answers a top-k nearest-station query with a bounded heap.
  - `get_top_k_neighbors` reads the neighbour cache.
  - `transfer_objects` moves one unit between two stations.

  The defaultdicts' insert-on-read is explicit. A store is a map together with
  its key insertion order, which is the order a Python dict iterates in.
- **The snapshot write-back** (`process_data` in `main.py`, module
  `ProcessData`). The table is cloned, then `capacity` is overwritten for the
  rows of at most the first five stations of the graph.
- **The field validator** (`DatasetLoader.check_fields` and the guard of
  `get_summary` in `pipeline/pipeline.py`, module `Pipeline`).

`Options.dfy` (module `Options`) holds the `Option` type that stands for
Python's `None` and for missing keys. `Ordering.dfy` (module `Ordering`) models Python's `<` on `str` and on
`(int, str)` tuples, the builtin `sorted` (as an insertion sort), and the
facts about strictly sorted, duplicate-free sequences that the proofs use.

The main result is that `get_distances` is correct. Its answer `r` satisfies
`IsNearest`:
- `r` is strictly ascending by `(distance, id)`.
- `r` never contains the target, and each distance is `|Δlat| + |Δlon|`.
- `r` holds exactly `min(max(k, 0), n - 1)` entries, where `n` is the number
  of stations after the target lookup.
- No station left out of `r` outranks a station kept in `r`. A closer station
  outranks a farther one. On a distance tie the larger id outranks, because
  `heappushpop` evicts the smallest `(-distance, id)` tuple.

`NearestIsUnique` shows that these conditions fix the answer. So the result
depends only on the set of stations, not on the order in which the dict
yields them.

Coordinates are integers (degrees scaled by a fixed factor), so distances are
exact. Python's `int` is unbounded and so is Dafny's `int`, so there is no
width to model.

## Model

| member | source | states |
|---|---|---|
| Ordering.StrLessTransitive | rebalancing_algo/graph.py:60 | Python's string order, which breaks distance ties, is transitive |
| Ordering.StrLessTotal | rebalancing_algo/graph.py:60 | any two distinct strings are ordered one way or the other |
| Ordering.TupleLessTotal | rebalancing_algo/graph.py:57-60 | any two distinct `(int, str)` tuples compare one way or the other |
| Ordering.Sort | rebalancing_algo/graph.py:60 | `sorted` yields an ascending permutation of its input |
| Ordering.PermutationNoDup | rebalancing_algo/graph.py:60 | sorting a duplicate-free list keeps it duplicate-free |
| Ordering.StrictlySortedSubsetEqual | rebalancing_algo/graph.py:60 | two strictly ascending lists of one length, one holding the other's elements, are equal |
| StationGraph.StationMap.Put | rebalancing_algo/graph.py:26 | `nodes[id] = st` sets that key; a new key goes last in iteration order, an existing key keeps its place |
| StationGraph.StationMap.Lookup | rebalancing_algo/graph.py:12 | reading the defaultdict: a known id changes nothing; an unknown id is inserted with `(0, 0, "")`, which is returned |
| StationGraph.FirstMalformed | rebalancing_algo/graph.py:25-28 | the position of the first station record that lacks a field: all records before it are complete |
| StationGraph.StoreAll | rebalancing_algo/graph.py:25-26 | writing the records in order keeps the store well formed and existing keys in place |
| StationGraph.StoreAllUntouched | rebalancing_algo/graph.py:25-26 | a key that no record names keeps its presence and its station |
| StationGraph.StoreAllLastWins | rebalancing_algo/graph.py:26 | a later record with the same id overwrites an earlier one |
| StationGraph.Graph.constructor | rebalancing_algo/graph.py:8-15 | a new graph has an empty store, no counts, an empty neighbour cache and the given `k` |
| StationGraph.Graph.FillNodes | rebalancing_algo/graph.py:17-28 | it raises "Invalid Payload Format" exactly when `data`, `stations` or a record field is missing; the records before the first bad one stay written (the load is not all-or-nothing) |
| StationGraph.Graph.GetTopKNeighbors | rebalancing_algo/graph.py:30-37 | a cached key returns its list and changes nothing; an unknown key returns `[]` and is added with `[]` |
| StationGraph.Graph.GetDistances | rebalancing_algo/graph.py:39-60 | the target is looked up with insert-on-read; the result is the nearest stations as `IsNearest` defines them |
| StationGraph.SelectNearest | rebalancing_algo/graph.py:50-60 | one pass over the stations in dict order with a bounded heap returns an `IsNearest` answer for every `k`, including `k <= 0` |
| StationGraph.Offer | rebalancing_algo/graph.py:56-59 | `heappush` below `k` entries, `heappushpop` at `k`; the heap stays the `min(k, n)` largest offered entries |
| StationGraph.SmallestIndex | rebalancing_algo/graph.py:59 | finds a smallest heap entry, the one `heappushpop` compares with and evicts |
| StationGraph.PushPopKeepsLargest | rebalancing_algo/graph.py:59 | evicting the smallest of the heap and the new item keeps every kept entry above every dropped one |
| StationGraph.PushKeepsBounded | rebalancing_algo/graph.py:56-57 | `heappush` below `k` keeps the heap invariant |
| StationGraph.PushPopKeepsBounded | rebalancing_algo/graph.py:58-59 | `heappushpop` at `k` keeps the heap invariant |
| StationGraph.OfferedStep | rebalancing_algo/graph.py:51-57 | each station offers one new heap entry, except the target, which is skipped |
| StationGraph.OfferedIsAll | rebalancing_algo/graph.py:51-55 | after the loop, every station but the target has offered exactly its `(-distance, id)` |
| StationGraph.SortedNegationMember | rebalancing_algo/graph.py:60 | an entry is in the sorted, negated heap exactly when its negation is in the heap |
| StationGraph.SortedNegation | rebalancing_algo/graph.py:60 | the returned list is strictly ascending, as long as the heap, and made of negated heap entries |
| StationGraph.KeptOutranksDropped | rebalancing_algo/graph.py:56-59 | a kept entry is closer than a dropped one, or as close with a larger id |
| StationGraph.ResultEntries | rebalancing_algo/graph.py:51-55 | every returned entry is a non-target station with its true Manhattan distance |
| StationGraph.ResultOutranks | rebalancing_algo/graph.py:56-60 | no omitted station outranks a returned one |
| StationGraph.HeapGivesNearest | rebalancing_algo/graph.py:56-60 | what the heap loop leaves, negated and sorted, is an `IsNearest` answer |
| StationGraph.NearestIsUnique | rebalancing_algo/graph.py:51-60 | two answers for the same stations are equal, so dict order does not matter |
| StationGraph.Transferred | rebalancing_algo/graph.py:70-71 | the source becomes `max(source - 1, 0)`, the target gains one, no other station changes, and both become keys |
| StationGraph.TransferTotal | rebalancing_algo/graph.py:70-71 | the total is kept when the source holds a unit; one unit is created when the source is empty |
| StationGraph.Graph.TransferObjects | rebalancing_algo/graph.py:62-71 | the counts afterwards are `Transferred` of the counts before |
| ProcessData.WithCapacity | main.py:106 | same number of rows; every row keeps its `station_id` and other columns; rows of the given station get the count as capacity, all other rows keep theirs |
| ProcessData.WithCapacityTwice | main.py:103-106 | writing the same station twice leaves only the later count |
| ProcessData.Written | main.py:102-107 | at most the first five stations, in insertion order, are written |
| ProcessData.LastWrittenNone | main.py:103-106 | a station gets no count exactly when no written pair names it |
| ProcessData.LastWrittenSome | main.py:103-106 | with distinct station ids, a written pair's count is the one that applies |
| ProcessData.WrittenRowTakesCount | main.py:106 | every row of a written station ends with that station's count |
| ProcessData.UnwrittenRowKeepsCapacity | main.py:106 | rows of stations that were not written keep their capacity |
| ProcessData.WriteBack | main.py:101-108 | the clone has the same rows in the same order; only `capacity` changes, as the first five stations dictate |
| ProcessData.ProcessData | main.py:93-108 | an output table exists exactly when a table ticked, and it is the write-back of that table |
| Pipeline.MissingFields | pipeline/pipeline.py:55 | exactly the required names absent from the columns, in input order, repeats kept |
| Pipeline.DatasetLoader.constructor | pipeline/pipeline.py:6-17 | a new loader keeps the path and has no table |
| Pipeline.DatasetLoader.CheckFields | pipeline/pipeline.py:40-62 | false with no table; with a table, true exactly when every required name is a column (so an empty list passes); no field changes |
| Pipeline.DatasetLoader.GetSummary | pipeline/pipeline.py:64-75 | nothing exactly when no table is loaded, else the table's description; no field changes |
| Pipeline.CheckFieldsScenario | tests/test_pipeline.py:38-41 | columns `column1, column2` with required `column1, column3` give false |

## Left out

- The rebalancing planner (`rebalance_stations`) is called at `main.py:99` but not defined in `rebalancing_algo/graph.py`. So are `set_top_k_distances`, `set_top_k_neighbors` and `get_top_k_distances`. They are not modelled. So `top_k_neighbors` is only ever read here.
- Coordinates are integers, not floats. IEEE rounding of distances is not modelled.
- The type annotations `tuple(float, float, str)` at `rebalancing_algo/graph.py:30,62` raise a `TypeError` when the module is imported. They are ignored.
- `_station_name_map` (`rebalancing_algo/graph.py:9`) is never used and is not modelled.
- StationGraph.Graph.TransferObjects: works on a separate `counts` map from station id to a natural number, as the method's docstring describes. The code as written subtracts from the `(lat, lon, name)` tuples in `nodes`, which would raise a `TypeError`.
- StationGraph.Graph.GetTopKNeighbors: keys are station ids (strings). The annotation names a coordinate tuple, and tests use tuple keys, but only the insert-on-read behaviour matters here. The model returns the cached list as a value, while the source returns the stored list object itself, so a caller that appended to it would change the cache; aliasing is not modelled (no caller in the repository mutates the list).
- StationGraph.Graph.FillNodes: record fields have fixed types (integer coordinates, string id and name). A malformed payload is modelled as missing keys. Python would store values of any type, and it would also raise for a payload that is not a mapping at all.
- StationGraph.SelectNearest: the heap is modelled by its contents. The binary-heap layout inside the list (sift-up, sift-down) is not modelled. `heappushpop` is modelled as replacing a smallest entry when the new item is larger. That is its effect on the heap's contents.
- StationGraph.Graph.GetDistances: follows the code. An unknown target is inserted at `(0, 0, "")` and measured from there, and no error is raised. A stricter variant that raises on unknown ids is not modelled.
- StationGraph.Graph.FillNodes: follows the code. Records before the first malformed one stay written, so the load is not all-or-nothing.
- ProcessData.ProcessData: the graph building at `main.py:96-99` is replaced by its result, an `(id, count)` list in insertion order. As written, `main.py:97` passes a DataFrame to `_fill_nodes`, and `main.py:103` unpacks 4-tuples where the store holds 3-tuples. Indexing a polars frame with `"data"` fails, and `rebalancing_algo/graph.py:27-28` turn that into `Exception("Invalid Payload Format")`; lines 98-99 also call methods that are not defined. So the code as written raises on every tick and never reaches lines 101-108: the contract states what the write-back would produce. Polars tables are sequences of rows, with the columns other than `station_id` and `capacity` kept as one value. Because sequences are values, the input table stays unchanged by construction.
- Pipeline.DatasetLoader.CheckFields: the messages it prints are not modelled.
- Pipeline.DatasetLoader.GetSummary: `describe()` is a polars library call and is taken as a function parameter. The statistics it computes are not modelled.
- `load_data` and `finalize_data` (`pipeline/pipeline.py:19-38`) wrap polars `scan_csv` and `collect` with logging. They are not modelled.
- The web server, websocket handler, event-loop thread and csp stream wiring in `main.py` are not modelled. The same holds for the HTTP fetch and GTFS-Realtime parsing in `data.py`, the OpenAI and geocoding calls in `alerts_test_showcase.py`, and `setup.py`. All of these are I/O, threading or packaging.
