# CleanAir Now dashboard helpers, modelled in Dafny

The CleanAir Now dashboard fetches pollutant measurements from OpenAQ and
shows them with an alert card, a chart with a baseline forecast, and a map of
monitoring stations. This project models the few decisions the dashboard
makes itself. The rest is fetching, table reshaping and plotting.

- `readings.dfy` (module `Readings`): one measurements-table row (`Record`)
  with its local timestamp, its value, its station name and its coordinates.
  A missing value (pandas NaN) is `Missing`. Timestamps are whole seconds and
  one hour is 3600 of them. `MaxDate` is the latest timestamp.
- `alerts.dfy` (module `Alerts`): the WHO-like limit table with its default
  of 35, and `get_alert_message`. A missing value gives "No data" in grey.
  Otherwise the reading is Good/green up to the limit, Moderate/orange up to
  twice the limit, and Unhealthy/red above that. The Folium marker colour
  (`MarkerColour`) and the Pydeck fill (`RgbFor`) restate the same banding.
  The lemmas show the bands are exhaustive, disjoint and monotone, and that
  all three copies agree on every present value. The message text is
  opaque: `Message` records only the pollutant, the value and which advice
  sentence is shown.
- `forecast.dfy` (module `Forecast`): `make_forecast` is a method. Its loop
  is the method `HourlyRows`. It returns one row per forecast hour. Row k (0-based) is
  dated k + 1 hours after the latest observation. Every row carries the last
  row's value as the persistence value. Every row carries the same rolling
  value: the mean of the last three or fewer present values, or the last
  row's value when there are none. The contracts of `Mean` and `Rolling`
  place that mean between the window's minimum and maximum.
- `selection.dfy` (module `Selection`): the trailing 24-hour window of the
  metrics and the map's station table. The station table keeps the rows that
  have coordinates, then the last row of each station. The 24-hour window is
  stated as an exact multiset of the input rows, and it is never empty for a
  non-empty table. The station table has one row per station that has
  coordinates. On a date-sorted table, each station's row is its newest one.

Measurements are `real`. Floating-point rounding of pandas' mean is not
modelled.

## Model

| member | source | states |
|---|---|---|
| `Readings.MaxDate` | app/app.py:70 | the latest timestamp is the timestamp of some row and no row is later |
| `Alerts.Limit` | app/app.py:80-82 | the limit is 15, 40, 100 and 45 for pm25, no2, o3 and pm10, 35 for any other name, and always positive |
| `Alerts.GetAlertMessage` | app/app.py:81-90 | "No data" exactly when the value is missing. The colour always matches the status. A present value's severity (0, 1, 2) is the number of thresholds (limit, twice the limit) it exceeds. Its message names the pollutant and the value, with the advice sentence of its band (good / limit prolonged exertion / stay indoors) |
| `Alerts.MissingIsNoData` | app/app.py:83-84 | a missing value gives "No data" in grey for every pollutant |
| `Alerts.BandsPartition` | app/app.py:85-90 | Good iff value <= limit; Moderate iff limit < value <= 2·limit; Unhealthy iff value > 2·limit; a present value is never "No data" |
| `Alerts.SeverityMonotone` | app/app.py:85-90 | for one pollutant, a larger reading is never in a less severe band |
| `Alerts.MarkerColour` | app/app.py:204 | as written: green exactly for a present value up to the limit, orange exactly for one above the limit and up to twice it, red for one above both, and red for a missing value (NaN); never grey |
| `Alerts.MarkerColourAgrees` | app/app.py:204 | for every present value, the Folium marker colour equals the alert colour for the same pollutant |
| `Alerts.RgbFor` | app/app.py:220-227 | as written: the fill is always one of (0,180,0), (255,165,0), (220,20,60), and it is the RGB of the Folium marker colour for every value, a missing one included |
| `Alerts.RgbForAgrees` | app/app.py:220-226 | for every present value, the Pydeck fill is the RGB of the alert colour: green (0,180,0), orange (255,165,0), red (220,20,60) |
| `Alerts.MarkerColourMissingIsRed` | app/app.py:203-204 | as written, a missing value is drawn red by Folium, while the alert colour for it is grey |
| `Alerts.RgbForMissingIsCrimson` | app/app.py:220-227 | as written, a missing value gets the crimson fill (220,20,60) of the Unhealthy band, not the fill of a Good reading |
| `Alerts.SafeMarkerColour` | app/app.py:204 | the corrected marker colour equals the alert colour for every reading, missing values included |
| `Forecast.Present` | app/app.py:72 | the present values are exactly the numbers of rows that have one, and there are none exactly when every value is missing |
| `Forecast.PresentSnoc` | app/app.py:72 | dropping missing values keeps row order: a row added at the end adds its value, if present, at the end |
| `Forecast.Window` | app/app.py:72 | the window is the suffix of the present values of length min(3, number of present values), so every element is a present value of the table. It is empty exactly when every value is missing |
| `Forecast.Mean` | app/app.py:73 | the mean of a non-empty window lies between its minimum and its maximum |
| `Forecast.Rolling` | app/app.py:72-73 | with a non-empty window, the rolling value is present, the window's mean, and within the window's bounds; with an empty window it equals the last row's value, present or not |
| `Forecast.HourlyRows` | app/app.py:74-77 | exactly max(0, hours_ahead) rows. Row k carries the time last_ts + (k+1) hours and the two given forecast values, so dates strictly increase |
| `Forecast.MakeForecast` | app/app.py:67-78 | empty input gives no rows. Otherwise there are max(0, hours_ahead) rows. Row k is dated MaxDate + (k+1) hours, so dates strictly increase. Every row's persistence is the last row's value and its rolling value is `Rolling` |
| `Selection.Last24h` | app/app.py:124 | each row is kept, with its multiplicity, exactly when it is at most 24 hours older than the latest row. The window is never empty and stays sorted when its input is |
| `Selection.WithCoordinates` | app/app.py:192 | each row is kept, with its multiplicity, exactly when both coordinates are present. A sorted table stays sorted |
| `Selection.KeepSorted` | app/app.py:124 | a row selection of a date-sorted table is date-sorted |
| `Selection.LatestPerLocation` | app/app.py:194 | only input rows, at most one per station, and every station of the input keeps a row |
| `Selection.LatestPerLocationIsLast` | app/app.py:194 | the row kept for a station is that station's last row in table order |
| `Selection.LastOfIsNewest` | app/app.py:194 | on a date-sorted table a station's last row has the latest timestamp of that station |
| `Selection.MapStations` | app/app.py:192-194 | only input rows with both coordinates, one per station. The stations are exactly those with a row that has coordinates |
| `Selection.MapStationsNewest` | app/app.py:192-194 | on a date-sorted table every station's marker row is that station's newest row with coordinates |

## Findings

| source | as written | input that shows it | evidently intended | confidence | as-written member | corrected member |
|---|---|---|---|---|---|---|
| app/app.py:204 | `float(row['value'])` of a missing value is NaN. Both comparisons with NaN are false, so the marker is red ("Unhealthy"). `rgb_for` (lines 220-226) likewise gives crimson | a station row with coordinates whose `value` is NaN | grey, as `get_alert_message` gives for a missing value (lines 83-84) | high for the Python semantics; not executed | `Alerts.MarkerColourMissingIsRed` | `Alerts.SafeMarkerColour` |

`rgb_for` has no grey RGB, so the model states only its as-written behaviour
for a missing value (`Alerts.RgbForMissingIsCrimson`).

## Left out

- Fetching from OpenAQ (`fetch_openaq`, lines 31-62): an HTTP request, a TTL cache and dateutil timestamp parsing, all foreign calls. Its one effect the model relies on is the sort by `date_local` (line 58). That sort is the `SortedByDate` requirement of the "newest" lemmas.
- The re-sort by `date_local` at line 194 is not modelled. Its input is already sorted, and the sort is not stable, so the order of rows with equal timestamps is unspecified. `LatestPerLocation` keeps the last row in table order. The "newest" property holds whichever tied row is kept.
- `groupby` drops rows whose station name is missing; `Record.location` is always a string, so that case is not modelled.
- The 24-hour average and maximum metrics (lines 125-129), the 48-hour chart window (lines 150-152), the map guard (line 189) and the alert card's choice of Streamlit call (lines 131-139): display logic.
- The message text and its `{value:.1f}` formatting: float-to-string rendering. `Message` keeps only its ingredients.
- Values that `float` cannot convert (the Folium loop skips the row, the Pydeck lambda raises): values are numbers or missing in this model.
- Charts, map construction, map centring, the CSV export and the page layout (lines 16-26, 95-104, 141-264): plotting and UI library glue.
- `app/weather_data/*.py` and `app/openAq datasets/us_air_quality_ets.py`: HTTP calls, CSV and NetCDF loading, and plotting with no logic of their own.
- Floating-point arithmetic: values and the mean are exact reals.
