/** The traffic-light classification of a pollutant reading against a
    WHO-like limit, and the two map colourings that restate it. */
module Alerts {
  import opened Readings

  /** The per-pollutant limits in µg/m³ (`WHO_LIKE`). */
  const WhoLike: map<string, real> := map["pm25" := 15.0, "no2" := 40.0, "o3" := 100.0, "pm10" := 45.0]

  /** The limit used for any pollutant name the table does not list. */
  const DefaultLimit: real := 35.0

  /** `WHO_LIKE.get(param, 35)`. */
  function Limit(param: string): (r: real)
    ensures param == "pm25" ==> r == 15.0
    ensures param == "no2" ==> r == 40.0
    ensures param == "o3" ==> r == 100.0
    ensures param == "pm10" ==> r == 45.0
    ensures param !in {"pm25", "no2", "o3", "pm10"} ==> r == 35.0
    ensures r > 0.0
  {
    if param in WhoLike then WhoLike[param] else DefaultLimit
  }

  datatype Status = NoData | Good | Moderate | Unhealthy

  datatype Colour = Grey | Green | Orange | Red

  /** The advice sentence of the alert; its wording is not modelled. */
  datatype Advice = AirIsGood | LimitProlongedExertion | StayIndoors

  /** The message of the alert: either the fixed "no recent measurement"
      text, or a sentence naming the pollutant, the value and the advice. */
  datatype Message = NoRecentMeasurement | Reading(param: string, value: real, advice: Advice)

  /** The `(status, colour, message)` triple of `get_alert_message`. */
  datatype Alert = Alert(status: Status, colour: Colour, message: Message)

  /** Severity of a rated status: 0 for Good, 1 for Moderate, 2 for Unhealthy. */
  function Severity(s: Status): nat
    requires s != NoData
  {
    match s
    case Good => 0
    case Moderate => 1
    case Unhealthy => 2
  }

  /** The advice sentence that belongs with each rated status. */
  function StatusAdvice(s: Status): Advice
    requires s != NoData
  {
    match s
    case Good => AirIsGood
    case Moderate => LimitProlongedExertion
    case Unhealthy => StayIndoors
  }

  /** The colour that belongs with each status. */
  function StatusColour(s: Status): Colour
  {
    match s
    case NoData => Grey
    case Good => Green
    case Moderate => Orange
    case Unhealthy => Red
  }

  /** How many of the two thresholds, the limit and twice the limit, a value
      lies strictly above. */
  function ThresholdsExceeded(x: real, limit: real): nat
  {
    (if x > limit then 1 else 0) + (if x > 2.0 * limit then 1 else 0)
  }

  /** `get_alert_message(param, value)`. */
  function GetAlertMessage(param: string, value: Measure): (a: Alert)
    ensures a.status == NoData <==> value.Missing?
    ensures a.colour == StatusColour(a.status)
    ensures value.Missing? ==> a.message == NoRecentMeasurement
    ensures value.Value? ==>
      Severity(a.status) == ThresholdsExceeded(value.x, Limit(param)) &&
      a.message.Reading? && a.message.param == param && a.message.value == value.x &&
      a.message.advice == StatusAdvice(a.status)
  {
    var limit := Limit(param);
    match value
    case Missing => Alert(NoData, Grey, NoRecentMeasurement)
    case Value(v) =>
      if v <= limit then Alert(Good, Green, Reading(param, v, AirIsGood))
      else if v <= 2.0 * limit then Alert(Moderate, Orange, Reading(param, v, LimitProlongedExertion))
      else Alert(Unhealthy, Red, Reading(param, v, StayIndoors))
  }

  /** A missing value gives "No data" in grey whatever the pollutant. */
  lemma MissingIsNoData(param: string)
    ensures GetAlertMessage(param, Missing).status == NoData
    ensures GetAlertMessage(param, Missing).colour == Grey
  {
  }

  /** The three bands cover every present value and do not overlap: each
      status holds exactly on its interval of values. */
  lemma BandsPartition(param: string, x: real)
    ensures GetAlertMessage(param, Value(x)).status == Good <==> x <= Limit(param)
    ensures GetAlertMessage(param, Value(x)).status == Moderate <==>
              Limit(param) < x <= 2.0 * Limit(param)
    ensures GetAlertMessage(param, Value(x)).status == Unhealthy <==> x > 2.0 * Limit(param)
    ensures GetAlertMessage(param, Value(x)).status != NoData
  {
  }

  /** A larger reading of the same pollutant is never in a better band. */
  lemma SeverityMonotone(param: string, x1: real, x2: real)
    requires x1 <= x2
    ensures Severity(GetAlertMessage(param, Value(x1)).status)
         <= Severity(GetAlertMessage(param, Value(x2)).status)
  {
  }

  /** The Folium marker colour of a station (line 204). The value goes
      through `float`, so a missing value is NaN; NaN fails both comparisons
      and the marker is red. */
  function MarkerColour(value: Measure, limit: real): (c: Colour)
    ensures c != Grey
    ensures c == Green <==> value.Value? && value.x <= limit
    ensures c == Orange <==> value.Value? && limit < value.x <= 2.0 * limit
    ensures c == Red <==> value.Missing? || (value.x > limit && value.x > 2.0 * limit)
  {
    match value
    case Missing => Red
    case Value(v) => if v <= limit then Green else if v <= 2.0 * limit then Orange else Red
  }

  /** An RGB triple as Pydeck takes it. */
  datatype Rgb = Rgb(red: nat, green: nat, blue: nat)

  /** The RGB that the Pydeck layer uses for each marker colour. */
  function ColourRgb(c: Colour): Rgb
    requires c != Grey
  {
    match c
    case Green => Rgb(0, 180, 0)
    case Orange => Rgb(255, 165, 0)
    case Red => Rgb(220, 20, 60)
  }

  /** `rgb_for(float(value))` of the Pydeck layer. A missing value is NaN and
      falls through to the last branch. */
  function RgbFor(value: Measure, limit: real): (c: Rgb)
    ensures c == ColourRgb(MarkerColour(value, limit))
    ensures c in {Rgb(0, 180, 0), Rgb(255, 165, 0), Rgb(220, 20, 60)}
  {
    match value
    case Missing => Rgb(220, 20, 60)
    case Value(v) =>
      if v <= limit then Rgb(0, 180, 0)
      else if v <= 2.0 * limit then Rgb(255, 165, 0)
      else Rgb(220, 20, 60)
  }

  /** For every present value the Folium marker has the alert's colour. */
  lemma MarkerColourAgrees(param: string, x: real)
    ensures MarkerColour(Value(x), Limit(param)) == GetAlertMessage(param, Value(x)).colour
  {
  }

  /** For every present value the Pydeck fill is the RGB of the alert's
      colour: green, orange and red map to (0, 180, 0), (255, 165, 0) and
      (220, 20, 60). */
  lemma RgbForAgrees(param: string, x: real)
    ensures RgbFor(Value(x), Limit(param)) == ColourRgb(GetAlertMessage(param, Value(x)).colour)
  {
  }

  /** As written, a station whose value is missing gets a red Folium
      marker, where the alert says grey "No data". */
  lemma MarkerColourMissingIsRed(param: string)
    ensures MarkerColour(Missing, Limit(param)) == Red
    ensures GetAlertMessage(param, Missing).colour == Grey
  {
  }

  /** As written, a station whose value is missing gets the crimson Pydeck
      fill of the Unhealthy band. */
  lemma RgbForMissingIsCrimson(param: string)
    ensures RgbFor(Missing, Limit(param)) == Rgb(220, 20, 60)
    ensures RgbFor(Missing, Limit(param)) != RgbFor(Value(0.0), Limit(param))
  {
  }

  /** The marker colour as evidently intended: grey for a missing value, the
      banded colour otherwise. It agrees with the alert on every reading. */
  function SafeMarkerColour(value: Measure, limit: real): (c: Colour)
    ensures forall param :: limit == Limit(param) ==> c == GetAlertMessage(param, value).colour
  {
    if value.Missing? then Grey else MarkerColour(value, limit)
  }
}
