/** Measurements as the dashboard holds them after fetching: one record per
    OpenAQ measurement row, with its local timestamp, the measured value
    (possibly missing), the station name and its coordinates. */
module Readings {

  datatype Option<+T> = None | Some(value: T)

  /** A measured value. `Missing` stands for the NaN (or None) that pandas
      stores where a measurement has no number. */
  datatype Measure = Missing | Value(x: real)

  /** Timestamps are whole seconds on a common local clock. */
  type Timestamp = int

  const SecondsPerHour: int := 3600

  /** One row of the measurements table: `date_local`, `value`, `location`,
      `lat` and `lon` columns. */
  datatype Record = Record(
    date: Timestamp,
    value: Measure,
    location: string,
    lat: Option<real>,
    lon: Option<real>)

  /** Rows in non-decreasing order of their timestamps, as the fetch step
      leaves them after sorting by `date_local`. */
  ghost predicate SortedByDate(rows: seq<Record>)
  {
    forall i, j :: 0 <= i < j < |rows| ==> rows[i].date <= rows[j].date
  }

  /** The latest timestamp of a non-empty table (`df['date_local'].max()`). */
  function MaxDate(rows: seq<Record>): (m: Timestamp)
    requires rows != []
    ensures exists k :: 0 <= k < |rows| && rows[k].date == m
    ensures forall k :: 0 <= k < |rows| ==> rows[k].date <= m
  {
    if |rows| == 1 then rows[0].date
    else
      var rest := MaxDate(rows[1..]);
      assert forall k :: 1 <= k < |rows| ==> rows[k] == rows[1..][k - 1];
      if rows[0].date >= rest then rows[0].date else rest
  }
}
