/** The baseline forecast of the dashboard: for each of the next hours, a
    persistence value (the last observation) and a rolling value (the mean of
    the last up-to-three present observations). */
module Forecast {
  import opened Readings

  /** One row of the forecast table: `date`, `persistence`, `rolling`. */
  datatype ForecastRow = ForecastRow(date: Timestamp, persistence: Measure, rolling: Measure)

  /** The present values of a table, in row order (`df['value'].dropna()`). */
  function Present(rows: seq<Record>): (p: seq<real>)
    ensures |p| <= |rows|
    ensures forall x :: x in p <==> exists r :: r in rows && r.value == Value(x)
    ensures p == [] <==> forall r :: r in rows ==> r.value.Missing?
  {
    if rows == [] then []
    else
      var rest := Present(rows[1..]);
      assert forall r :: r in rows <==> r == rows[0] || r in rows[1..];
      match rows[0].value
      case Missing => rest
      case Value(x) => [x] + rest
  }

  /** The present values keep row order: a row added at the end of the
      table adds its value, if present, at the end. */
  lemma {:induction false} PresentSnoc(rows: seq<Record>, r: Record)
    ensures Present(rows + [r]) == Present(rows) + (if r.value.Value? then [r.value.x] else [])
  {
    if rows != [] {
      assert (rows + [r])[1..] == rows[1..] + [r];
      PresentSnoc(rows[1..], r);
    }
  }

  /** The last up-to-three present values (`.dropna().tail(3)`). */
  function Window(rows: seq<Record>): (w: seq<real>)
    ensures |w| == if |Present(rows)| < 3 then |Present(rows)| else 3
    ensures w == Present(rows)[|Present(rows)| - |w|..]
    ensures w == [] <==> forall r :: r in rows ==> r.value.Missing?
  {
    var p := Present(rows);
    if |p| <= 3 then
      assert p[0..] == p;
      p
    else
      p[|p| - 3..]
  }

  function Sum(w: seq<real>): real
  {
    if w == [] then 0.0 else w[0] + Sum(w[1..])
  }

  function SeqMin(w: seq<real>): (m: real)
    requires w != []
    ensures m in w && forall k :: 0 <= k < |w| ==> m <= w[k]
  {
    if |w| == 1 then w[0]
    else
      var rest := SeqMin(w[1..]);
      assert forall k :: 1 <= k < |w| ==> w[k] == w[1..][k - 1];
      if w[0] <= rest then w[0] else rest
  }

  function SeqMax(w: seq<real>): (m: real)
    requires w != []
    ensures m in w && forall k :: 0 <= k < |w| ==> w[k] <= m
  {
    if |w| == 1 then w[0]
    else
      var rest := SeqMax(w[1..]);
      assert forall k :: 1 <= k < |w| ==> w[k] == w[1..][k - 1];
      if w[0] >= rest then w[0] else rest
  }

  /** A sum of values each between `lo` and `hi` lies between `|w|` times
      each bound. */
  lemma {:induction false} SumBetween(w: seq<real>, lo: real, hi: real)
    requires forall k :: 0 <= k < |w| ==> lo <= w[k] <= hi
    ensures (|w| as real) * lo <= Sum(w) <= (|w| as real) * hi
  {
    if w != [] {
      assert forall k :: 1 <= k < |w| ==> w[k] == w[1..][k - 1];
      SumBetween(w[1..], lo, hi);
      assert (|w| as real) * lo == lo + ((|w| - 1) as real) * lo;
      assert (|w| as real) * hi == hi + ((|w| - 1) as real) * hi;
    }
  }

  /** Dividing by a positive count keeps a total's bounds per item. */
  lemma QuotientBetween(s: real, n: real, lo: real, hi: real)
    requires n > 0.0 && n * lo <= s <= n * hi
    ensures lo <= s / n <= hi
  {
    var q := s / n;
    assert (q - lo) * n == s - n * lo;
    assert (hi - q) * n == n * hi - s;
  }

  /** The average of values each between `lo` and `hi` lies between them. */
  lemma AverageBetween(w: seq<real>, lo: real, hi: real)
    requires w != []
    requires forall k :: 0 <= k < |w| ==> lo <= w[k] <= hi
    ensures lo <= Sum(w) / (|w| as real) <= hi
  {
    SumBetween(w, lo, hi);
    QuotientBetween(Sum(w), |w| as real, lo, hi);
  }

  /** The arithmetic mean of a non-empty sequence (`window.mean()`); it lies
      between the minimum and the maximum of `w`. */
  function Mean(w: seq<real>): (m: real)
    requires w != []
    ensures SeqMin(w) <= m <= SeqMax(w)
  {
    AverageBetween(w, SeqMin(w), SeqMax(w));
    Sum(w) / (|w| as real)
  }

  /** The rolling value (`rolling_val`): with a non-empty window, the present
      mean of the window, between the smallest and the largest of the last
      up-to-three present values; with none, the last row's value, present or
      not. */
  function Rolling(rows: seq<Record>): (r: Measure)
    requires rows != []
    ensures Window(rows) != [] ==>
      r.Value? && SeqMin(Window(rows)) <= r.x <= SeqMax(Window(rows))
    ensures Window(rows) == [] ==> r == rows[|rows| - 1].value
  {
    var w := Window(rows);
    if |w| > 0 then Value(Mean(w)) else rows[|rows| - 1].value
  }

  /** The loop of `make_forecast`: for i = 1 .. hours_ahead, a row dated i
      hours after `lastTs` carrying the two forecast values. */
  method HourlyRows(lastTs: Timestamp, lastVal: Measure, rollingVal: Measure, hoursAhead: int)
    returns (forecast: seq<ForecastRow>)
    ensures |forecast| == if hoursAhead > 0 then hoursAhead else 0
    ensures forall k :: 0 <= k < |forecast| ==>
      forecast[k] == ForecastRow(lastTs + (k + 1) * SecondsPerHour, lastVal, rollingVal)
    ensures forall j, k :: 0 <= j < k < |forecast| ==> forecast[j].date < forecast[k].date
  {
    forecast := [];
    var i := 1;
    while i <= hoursAhead
      invariant 1 <= i <= (if hoursAhead > 0 then hoursAhead else 0) + 1
      invariant |forecast| == i - 1
      invariant forall k :: 0 <= k < |forecast| ==>
        forecast[k] == ForecastRow(lastTs + (k + 1) * SecondsPerHour, lastVal, rollingVal)
    {
      forecast := forecast + [ForecastRow(lastTs + i * SecondsPerHour, lastVal, rollingVal)];
      i := i + 1;
    }
    forall j, k | 0 <= j < k < |forecast| ensures forecast[j].date < forecast[k].date {
      assert (k + 1) * SecondsPerHour - (j + 1) * SecondsPerHour == (k - j) * SecondsPerHour;
    }
  }

  /** `make_forecast(df, hours_ahead)`: no rows for an empty table; otherwise
      `hours_ahead` rows, one per hour past the latest timestamp, each with
      the last value as persistence and the same rolling value. */
  method MakeForecast(rows: seq<Record>, hoursAhead: int) returns (forecast: seq<ForecastRow>)
    ensures rows == [] ==> forecast == []
    ensures rows != [] ==> |forecast| == (if hoursAhead > 0 then hoursAhead else 0)
    ensures rows != [] ==> forall k :: 0 <= k < |forecast| ==>
      forecast[k].date == MaxDate(rows) + (k + 1) * SecondsPerHour &&
      forecast[k].persistence == rows[|rows| - 1].value &&
      forecast[k].rolling == Rolling(rows)
    ensures forall j, k :: 0 <= j < k < |forecast| ==> forecast[j].date < forecast[k].date
  {
    if rows == [] {
      return [];
    }
    var lastTs := MaxDate(rows);
    var lastVal := rows[|rows| - 1].value;
    var rollingVal := Rolling(rows);
    forecast := HourlyRows(lastTs, lastVal, rollingVal, hoursAhead);
  }
}
