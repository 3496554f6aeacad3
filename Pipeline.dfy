/** The dataset loader's read-only checks: the required-field validator and
    the summary guard. A loaded table is represented by its column names. */
module Pipeline {
  import opened Options

  datatype DataFrame = DataFrame(columns: seq<string>)

  /** `a` is `b` with some elements removed, the rest kept in order. */
  predicate IsSubsequence(a: seq<string>, b: seq<string>)
  {
    if a == [] then true
    else if b == [] then false
    else if a[0] == b[0] then IsSubsequence(a[1..], b[1..])
    else IsSubsequence(a, b[1..])
  }

  /** Putting a name in front keeps a subsequence a subsequence. */
  lemma {:induction false} SubsequenceOfTail(a: seq<string>, x: string, b: seq<string>)
    requires IsSubsequence(a, b)
    ensures IsSubsequence(a, [x] + b)
    decreases |a| + |b|, 1
  {
    assert ([x] + b)[1..] == b;
    if a != [] && a[0] == x {
      SubsequenceWeaken(a, b);
    }
  }

  /** Dropping the first element keeps a subsequence a subsequence. */
  lemma {:induction false} SubsequenceWeaken(a: seq<string>, b: seq<string>)
    requires a != [] && IsSubsequence(a, b)
    ensures IsSubsequence(a[1..], b)
    decreases |a| + |b|, 0
  {
    if a[0] != b[0] {
      SubsequenceWeaken(a, b[1..]);
    }
    SubsequenceOfTail(a[1..], b[0], b[1..]);
    assert [b[0]] + b[1..] == b;
  }

  /** The list comprehension `[f for f in required if f not in existing]`:
      the required names absent from the columns, in their order, repeats
      kept. */
  function MissingFields(required: seq<string>, existing: seq<string>): (r: seq<string>)
    ensures forall f :: f in r <==> f in required && f !in existing
    ensures forall f :: f !in existing ==> multiset(r)[f] == multiset(required)[f]
    ensures IsSubsequence(r, required)
  {
    if required == [] then []
    else
      var rest := MissingFields(required[1..], existing);
      assert required == [required[0]] + required[1..];
      SubsequenceOfTail(rest, required[0], required[1..]);
      if required[0] in existing then rest
      else [required[0]] + rest
  }

  class DatasetLoader {
    var filePath: string
    var dataframe: Option<DataFrame>

    /** A loader for `filePath`, with nothing loaded yet. */
    constructor(filePath: string)
      ensures this.filePath == filePath && dataframe == None
    {
      this.filePath := filePath;
      dataframe := None;
    }

    /** `check_fields`: false when nothing is loaded, otherwise true exactly
        when every required name is a column. It reads the loader and
        changes none of its fields. */
    function CheckFields(required: seq<string>): (ok: bool)
      reads this
      ensures dataframe == None ==> !ok
      ensures dataframe != None ==>
                (ok <==> forall f :: f in required ==> f in dataframe.value.columns)
    {
      match dataframe
      case None => false
      case Some(frame) =>
        var missing := MissingFields(required, frame.columns);
        assert missing != [] ==> missing[0] in missing;
        missing == []
    }

    /** `get_summary`: nothing when no table is loaded, otherwise the
        table's description. The statistics are computed by `describe`,
        which is not part of this model. */
    function GetSummary(describe: DataFrame -> DataFrame): (r: Option<DataFrame>)
      reads this
      ensures r == None <==> dataframe == None
      ensures r != None ==> r.value == describe(dataframe.value)
    {
      match dataframe
      case None => None
      case Some(frame) => Some(describe(frame))
    }
  }

  /** The scenario of the loader's field test: a table with columns
      `column1, column2` lacks `column3`. */
  method CheckFieldsScenario() returns (ok: bool)
    ensures !ok
  {
    var loader := new DatasetLoader("test_data/Iris.csv");
    loader.dataframe := Some(DataFrame(["column1", "column2"]));
    ok := loader.CheckFields(["column1", "column3"]);
    assert "column3" !in loader.dataframe.value.columns;
  }
}
