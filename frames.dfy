/**
 * The failure values of the pipeline: pandas' KeyError for absent columns
 * and numpy's ValueError for a sample size `np.random.choice` refuses.
 */
module Results {

  datatype Result<+T, +E> = Ok(value: T) | Err(error: E)

  datatype Error =
    | KeyError(missing: seq<string>)
    | NegativeSampleSize(size: int)
    | SampleLargerThanPopulation(size: int, population: nat)
}

/**
 * A table as the split sees it: an ordered header of column names and an
 * ordered sequence of rows, each row holding one cell per column. Cell
 * values are abstract and compared only by equality.
 */
module Frames {
  import opened Series
  import opened Results

  datatype Frame<V> = Frame(columns: seq<string>, rows: seq<seq<V>>) {
    /** Column names are distinct and every row has one cell per column. */
    predicate Valid() {
      Distinct(columns) && forall i | 0 <= i < |rows| :: |rows[i]| == |columns|
    }
  }

  /** Position of a column in the header. */
  function IndexOf(columns: seq<string>, name: string): (k: nat)
    requires name in columns
    ensures k < |columns| && columns[k] == name
  {
    FirstIndex(columns, name)
  }

  /** The cells of a column that is known to exist, top to bottom. */
  function ColumnValues<V>(df: Frame<V>, name: string): (col: seq<V>)
    requires df.Valid() && name in df.columns
    ensures |col| == |df.rows|
    ensures forall i | 0 <= i < |df.rows| :: col[i] == df.rows[i][IndexOf(df.columns, name)]
  {
    var k := IndexOf(df.columns, name);
    seq(|df.rows|, i requires 0 <= i < |df.rows| => df.rows[i][k])
  }

  /** `df[name]`: the column, or a KeyError naming it when it is absent. */
  function Column<V>(df: Frame<V>, name: string): (r: Result<seq<V>, Error>)
    requires df.Valid()
    ensures r.Ok? <==> name in df.columns
    ensures r.Err? ==> r.error == KeyError([name])
    ensures r.Ok? ==> r.value == ColumnValues(df, name)
  {
    if name in df.columns then Ok(ColumnValues(df, name)) else Err(KeyError([name]))
  }

  /** `df[mask]`: the rows whose mask entry is true, under the same header. */
  function Where<V(==)>(df: Frame<V>, mask: seq<bool>): (r: Frame<V>)
    requires df.Valid() && |mask| == |df.rows|
    ensures r.Valid() && r.columns == df.columns
    ensures forall row | row in r.rows :: row in df.rows
  {
    FilterAt(df.rows, mask);
    Frame(df.columns, Filter(df.rows, mask))
  }

  /** Filtering rows and then reading a column reads the filtered column. */
  lemma ColumnOfWhere<V>(df: Frame<V>, mask: seq<bool>, name: string)
    requires df.Valid() && |mask| == |df.rows| && name in df.columns
    ensures ColumnValues(Where(df, mask), name) == Filter(ColumnValues(df, name), mask)
  {
    var col := ColumnValues(df, name);
    FilterAt(df.rows, mask);
    FilterAt(col, mask);
  }

  /** The requested names that the header lacks, in request order. */
  function MissingColumns(columns: seq<string>, names: seq<string>): (missing: seq<string>)
    ensures forall n | n in names :: n in missing <==> n !in columns
    ensures forall n | n in missing :: n in names
  {
    var mask := Negate(IsIn(names, columns));
    forall n | n in names || n in Filter(names, mask) ensures n in Filter(names, mask) <==> n in names && n !in columns {
      FilterMembership(names, mask, n);
    }
    Filter(names, mask)
  }

  /**
   * `df[names]`: the named columns in the requested order, or a KeyError
   * listing every requested name that is absent.
   */
  function Select<V>(df: Frame<V>, names: seq<string>): (r: Result<Frame<V>, Error>)
    requires df.Valid()
    ensures r.Ok? <==> forall n | n in names :: n in df.columns
    ensures r.Err? ==> r.error == KeyError(MissingColumns(df.columns, names))
    ensures r.Ok? ==> r.value.columns == names && |r.value.rows| == |df.rows|
    ensures r.Ok? ==> forall i, j | 0 <= i < |df.rows| && 0 <= j < |names| ::
      |r.value.rows[i]| == |names| && r.value.rows[i][j] == df.rows[i][IndexOf(df.columns, names[j])]
    ensures r.Ok? && Distinct(names) ==> r.value.Valid()
  {
    var missing := MissingColumns(df.columns, names);
    if missing != [] then
      assert missing[0] in names && missing[0] !in df.columns;
      Err(KeyError(missing))
    else
      Ok(Frame(names, seq(|df.rows|, i requires 0 <= i < |df.rows| =>
        seq(|names|, j requires 0 <= j < |names| => df.rows[i][IndexOf(df.columns, names[j])]))))
  }
}
