/** The tables that the GOV.UK coronavirus API client hands back for one area,
    reduced to what the reshape and the retry loop look at. */
module Frames {

  datatype Option<T> = None | Some(value: T)

  /** An ISO date string such as "2021-02-01"; the source keeps dates as
      strings (the conversion to a DatetimeIndex is commented out). */
  type Date = string

  /** A local-authority (LTLA) code such as "E06000001". */
  type AreaCode = string

  /** The name of a reported metric column, e.g. "newCasesBySpecimenDate". */
  type Column = string

  /** One row of an API table: its `date` and `areaCode` cells and one cell per
      metric column, each a number or missing (NaN). */
  datatype Row = Row(date: Date, areaCode: AreaCode, measures: map<Column, Option<int>>)

  /** A pandas DataFrame as the API returns it: either the frame with no rows and
      no columns, or a table with the `date` and `areaCode` columns, a set of
      metric columns and its rows. */
  datatype DataFrame =
    | NoColumns
    | Table(measures: set<Column>, rows: seq<Row>)

  /** Every row has exactly the table's metric columns, none of which is
      `date` or `areaCode`. */
  predicate Rectangular(f: DataFrame)
  {
    f.Table? ==>
      && "date" !in f.measures && "areaCode" !in f.measures
      && forall r :: r in f.rows ==> r.measures.Keys == f.measures
  }

  type Frame = f: DataFrame | Rectangular(f) witness NoColumns

  /** `df.shape`: (number of rows, number of columns). */
  function Shape(f: Frame): (nat, nat)
  {
    match f
    case NoColumns => (0, 0)
    case Table(measures, rows) => (|rows|, 2 + |measures|)
  }

  /** `df.shape == (0, 0)` holds exactly of the frame with no columns: a table
      with columns but no rows is not "empty" to the source's test. */
  lemma ShapeEmptyIff(f: Frame)
    ensures Shape(f) == (0, 0) <==> f.NoColumns?
  {
  }
}
