/** The write-back step of the `process_data` stream node: the per-station
    counts held by the graph are copied onto the `capacity` column of a copy
    of the station table, for at most the first five stations. Tables are
    sequences of rows; the graph's stations are their `(id, count)` pairs in
    dict insertion order. */
module ProcessData {
  import opened Options

  /** A table row: the `station_id` and `capacity` columns, and every other
      column as one opaque value. */
  datatype Row<C> = Row(stationId: string, capacity: int, others: C)

  /** What the stream input holds when the node is invoked. */
  datatype Tick<C> = Idle | Frame(rows: seq<Row<C>>) | NotFrame

  /** The loop stops once this many stations have been written. */
  const MaxWrittenStations := 5

  /** `with_columns(when(station_id == id).then(count).otherwise(capacity))`:
      a table of the same rows where only the rows of station `id` change,
      and only in their capacity. */
  function WithCapacity<C>(rows: seq<Row<C>>, id: string, count: int): (r: seq<Row<C>>)
    ensures |r| == |rows|
    ensures forall j :: 0 <= j < |rows| ==>
              r[j].stationId == rows[j].stationId && r[j].others == rows[j].others
    ensures forall j :: 0 <= j < |rows| && rows[j].stationId == id ==> r[j].capacity == count
    ensures forall j :: 0 <= j < |rows| && rows[j].stationId != id ==> r[j].capacity == rows[j].capacity
  {
    seq(|rows|, j requires 0 <= j < |rows| =>
      rows[j].(capacity := if rows[j].stationId == id then count else rows[j].capacity))
  }

  /** Writing one station twice leaves only the later count. */
  lemma WithCapacityTwice<C>(rows: seq<Row<C>>, id: string, first: int, second: int)
    ensures WithCapacity(WithCapacity(rows, id, first), id, second) == WithCapacity(rows, id, second)
  {
    var twice := WithCapacity(WithCapacity(rows, id, first), id, second);
    var once := WithCapacity(rows, id, second);
    forall j | 0 <= j < |rows|
      ensures twice[j] == once[j]
    {
      assert twice[j].capacity == once[j].capacity;
    }
  }

  /** The count of the last written pair for station `id`, if any. */
  function LastWritten(written: seq<(string, int)>, id: string): Option<int>
  {
    if written == [] then None
    else if written[|written| - 1].0 == id then Some(written[|written| - 1].1)
    else LastWritten(written[..|written| - 1], id)
  }

  /** The capacity a row ends with once `written` has been copied onto it. */
  function CapacityAfter<C>(row: Row<C>, written: seq<(string, int)>): int
  {
    match LastWritten(written, row.stationId)
    case Some(count) => count
    case None => row.capacity
  }

  /** The stations the loop reaches before `count == 5` stops it. */
  function Written(nodes: seq<(string, int)>): (w: seq<(string, int)>)
    ensures |w| <= MaxWrittenStations && |w| <= |nodes|
    ensures w == nodes[..|w|]
    ensures |w| < MaxWrittenStations ==> w == nodes
  {
    if |nodes| <= MaxWrittenStations then nodes else nodes[..MaxWrittenStations]
  }

  /** Ids of a written list are distinct, as keys of a dict are. */
  ghost predicate DistinctIds(written: seq<(string, int)>)
  {
    forall a, b :: 0 <= a < b < |written| ==> written[a].0 != written[b].0
  }

  /** No pair is written for `id` exactly when no written pair names it. */
  lemma {:induction false} LastWrittenNone(written: seq<(string, int)>, id: string)
    ensures LastWritten(written, id) == None <==> forall p :: p in written ==> p.0 != id
  {
    if written != [] {
      var prefix := written[..|written| - 1];
      LastWrittenNone(prefix, id);
      assert written == prefix + [written[|written| - 1]];
    }
  }

  /** With distinct ids, a written pair `(id, count)` is the one that counts. */
  lemma {:induction false} LastWrittenSome(written: seq<(string, int)>, id: string, count: int)
    requires DistinctIds(written)
    requires (id, count) in written
    ensures LastWritten(written, id) == Some(count)
  {
    var last := written[|written| - 1];
    var prefix := written[..|written| - 1];
    assert written == prefix + [last];
    if last.0 == id {
      var a :| 0 <= a < |written| && written[a] == (id, count);
      assert a == |written| - 1;
    } else {
      assert (id, count) in prefix;
      LastWrittenSome(prefix, id, count);
    }
  }

  /** A row of a written station ends with that station's count. */
  lemma WrittenRowTakesCount<C>(row: Row<C>, written: seq<(string, int)>, count: int)
    requires DistinctIds(written) && (row.stationId, count) in written
    ensures CapacityAfter(row, written) == count
  {
    LastWrittenSome(written, row.stationId, count);
  }

  /** A row whose station was not written keeps its capacity. */
  lemma UnwrittenRowKeepsCapacity<C>(row: Row<C>, written: seq<(string, int)>)
    requires forall p :: p in written ==> p.0 != row.stationId
    ensures CapacityAfter(row, written) == row.capacity
  {
    LastWrittenNone(written, row.stationId);
  }

  /** Lines 101-108 of `process_data`: clone the table, then for each of the
      first five stations overwrite `capacity` on the rows of that station.
      Rows keep their order, ids and other columns; the input is a value and
      is left as it was. */
  method WriteBack<C>(df: seq<Row<C>>, nodes: seq<(string, int)>) returns (modified: seq<Row<C>>)
    ensures |modified| == |df|
    ensures forall j :: 0 <= j < |df| ==>
              modified[j] == df[j].(capacity := CapacityAfter(df[j], Written(nodes)))
  {
    modified := df;
    var count := 0;
    var i := 0;
    while i < |nodes|
      invariant 0 <= i <= |nodes| && count == i && i <= MaxWrittenStations
      invariant |modified| == |df|
      invariant forall j :: 0 <= j < |df| ==>
                  modified[j] == df[j].(capacity := CapacityAfter(df[j], nodes[..i]))
    {
      if count == MaxWrittenStations {
        break;
      }
      var (stationId, numBikes) := nodes[i];
      modified := WithCapacity(modified, stationId, numBikes);
      count := count + 1;
      assert nodes[..i + 1][..i] == nodes[..i];
      i := i + 1;
    }
    assert nodes[..i] == Written(nodes);
  }

  /** Lines 94-108: only a ticked table yields an output table. The graph
      building of lines 96-99 is replaced by its result, `nodes`. */
  method ProcessData<C>(df: Tick<C>, nodes: seq<(string, int)>) returns (out: Option<seq<Row<C>>>)
    ensures out.Some? <==> df.Frame?
    ensures out.Some? ==> |out.value| == |df.rows|
    ensures out.Some? ==> forall j :: 0 <= j < |df.rows| ==>
              out.value[j] == df.rows[j].(capacity := CapacityAfter(df.rows[j], Written(nodes)))
  {
    match df
    case Frame(rows) =>
      var modified := WriteBack(rows, nodes);
      out := Some(modified);
    case Idle =>
      out := None;
    case NotFrame =>
      out := None;
  }
}
