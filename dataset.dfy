/** The population table the dashboard is built on, and the Python failures
    the dashboard can run into.

    One row of the table is one (State, State Code, Year, Population) record,
    as loaded once from the preprocessed CSV file. The loaded table is an
    input sequence here; reading the file is not modelled. */
module Dataset {

  /** A row of the loaded table. */
  datatype Row = Row(state: string, code: string, year: int, population: int)

  /** A row of a year slice after `reset_index()`: `index` is the row's
      position in the loaded table (pandas keeps it as a column named
      `index`), `row` the record itself. */
  datatype Indexed = Indexed(index: nat, row: Row)

  /** A row of the table returned by `calculate_population_difference`:
      the selected-year row plus its `Population_difference` column. */
  datatype DiffRow = DiffRow(index: nat, row: Row, difference: int)

  /** The exceptions the modelled code can raise. */
  datatype PyError =
    | IndexError              // `.iloc[0]` / `year_list[-1]` on an empty sequence
    | UnboundLocalError       // `chart_color` used without being assigned
    | SelectIndexOutOfRange   // the year drop-down refuses its default index

  /** The outcome of an operation that may raise. */
  datatype Result<T> = Ok(value: T) | Fail(error: PyError)

  datatype Option<T> = None | Some(value: T)

  /** The years of the rows, in table order (`df.Year`). */
  function Years(t: seq<Row>): (ys: seq<int>)
    ensures |ys| == |t|
    ensures forall i :: 0 <= i < |t| ==> ys[i] == t[i].year
  {
    seq(|t|, i requires 0 <= i < |t| => t[i].year)
  }

  /** The data invariant stated for the loaded table: no (State, Year) pair
      occurs twice, and no population is negative. */
  ghost predicate WellFormed(t: seq<Row>)
  {
    && (forall i, j :: 0 <= i < j < |t| && t[i].year == t[j].year ==> t[i].state != t[j].state)
    && (forall i :: 0 <= i < |t| ==> t[i].population >= 0)
  }
}
