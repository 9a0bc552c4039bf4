/** The second stage of get_rate: the Bank of Canada Valet API, series
    V122544, last ten observations. The HTTP request and the JSON decoding
    are an input (`None` when either raised), and so is Python's `float`
    (`parse`, `None` when it raises). */
module BankOfCanada {
  import opened Options

  /** The series key of the long-term bond yield. */
  const SeriesKey: string := "V122544"

  /** The key of an observation's value inside its series entry. */
  const ValueKey: string := "v"

  /** One member of an observation object: either a string (the date under
      `d`) or a nested object (the series entry, `{"v": "3.41"}`). */
  datatype Field = Text(text: string) | Object(entries: map<string, string>)

  /** One element of the `observations` list. */
  datatype Observation = Observation(fields: map<string, Field>)

  /** The decoded response: the `observations` list when that key is
      present, `None` when it is not. */
  datatype Body = Body(observations: Option<seq<Observation>>)

  /** `entry["V122544"]["v"]`; `None` where Python raises (a missing key,
      or a series member that is not an object). */
  function ObservationValue(o: Observation): (v: Option<string>)
    ensures v.Some? <==>
              && SeriesKey in o.fields
              && o.fields[SeriesKey].Object?
              && ValueKey in o.fields[SeriesKey].entries
    ensures v.Some? ==> v.value == o.fields[SeriesKey].entries[ValueKey]
  {
    if SeriesKey in o.fields then
      match o.fields[SeriesKey]
      case Text(_) => None
      case Object(entries) => if ValueKey in entries then Some(entries[ValueKey]) else None
    else None
  }

  /** `data["observations"][-1]`, guarded as get_rate guards it: only when
      the key is present and the list is not empty. */
  function LastObservation(body: Body): (o: Option<Observation>)
    ensures o.Some? <==> body.observations.Some? && |body.observations.value| > 0
    ensures o.Some? ==>
              var obs := body.observations.value;
              o.value == obs[|obs| - 1] && o.value in obs
  {
    match body.observations
    case None => None
    case Some(obs) => if |obs| > 0 then Some(obs[|obs| - 1]) else None
  }

  /** The Bank of Canada stage: the parsed value of the last observation;
      nothing when the request or decoding raised, the list is absent or
      empty, a key is missing, or `float` rejects the text. */
  function Stage(body: Option<Body>, parse: string -> Option<real>): (r: Option<real>)
    ensures body.None? ==> r.None?
    ensures body.Some? && body.value.observations.None? ==> r.None?
    ensures body.Some? && body.value.observations == Some([]) ==> r.None?
    ensures r.Some? ==>
              && body.Some?
              && LastObservation(body.value).Some?
              && ObservationValue(LastObservation(body.value).value).Some?
              && r == parse(ObservationValue(LastObservation(body.value).value).value)
    ensures body.Some? && LastObservation(body.value).Some? &&
            ObservationValue(LastObservation(body.value).value).Some? ==>
              r == parse(ObservationValue(LastObservation(body.value).value).value)
  {
    match body
    case None => None
    case Some(b) =>
      match LastObservation(b)
      case None => None
      case Some(last) =>
        match ObservationValue(last)
        case None => None
        case Some(text) => parse(text)
  }

  /** Only the last observation counts: whatever precedes it in the list,
      the stage yields what that observation alone would yield. */
  lemma OnlyLastObservationMatters(earlier: seq<Observation>, last: Observation,
                                   parse: string -> Option<real>)
    ensures Stage(Some(Body(Some(earlier + [last]))), parse)
            == Stage(Some(Body(Some([last]))), parse)
    ensures Stage(Some(Body(Some(earlier + [last]))), parse)
            == (match ObservationValue(last)
                case None => None
                case Some(text) => parse(text))
  {
    var obs := earlier + [last];
    assert obs[|obs| - 1] == last;
  }

  /** A last observation without the series value makes the stage fail,
      even when an earlier observation has one. */
  lemma LastWithoutValueFails(earlier: seq<Observation>, last: Observation,
                              parse: string -> Option<real>)
    requires ObservationValue(last).None?
    ensures Stage(Some(Body(Some(earlier + [last]))), parse).None?
  {
    var obs := earlier + [last];
    assert obs[|obs| - 1] == last;
  }
}
