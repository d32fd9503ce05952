/**
 * The request data that `getData` in js/bikedata.js sends for the collision
 * locations: the bounding box of the map view and the API key. The form
 * parameters it is given are not added to it.
 */
module Request {

  type Parameters = map<string, string>

  /** The request data as written: `bbox` and `key` only; `parameters` is
      accepted and not used. */
  function ApiData(bbox: string, key: string, parameters: Parameters): Parameters
  {
    map["bbox" := bbox, "key" := key]
  }

  /** The request carries exactly `bbox` and `key`, holding the bounding box
      and the API key, whatever the form parameters are. */
  lemma ApiDataKeys(bbox: string, key: string, parameters: Parameters)
    ensures ApiData(bbox, key, parameters).Keys == {"bbox", "key"}
    ensures ApiData(bbox, key, parameters)["bbox"] == bbox
    ensures ApiData(bbox, key, parameters)["key"] == key
  {
  }

  /** The request does not depend on the form parameters at all. */
  lemma ParametersIgnored(bbox: string, key: string, p1: Parameters, p2: Parameters)
    ensures ApiData(bbox, key, p1) == ApiData(bbox, key, p2)
  {
  }

  /** No form parameter other than one named `bbox` or `key` is sent. */
  lemma FormValuesNotSent(bbox: string, key: string, parameters: Parameters, name: string)
    requires name in parameters && name != "bbox" && name != "key"
    ensures name !in ApiData(bbox, key, parameters)
  {
  }

  /** A form with one checked car checkbox: its filter is not in the request. */
  lemma CarFilterDropped(bbox: string, key: string)
    ensures "type" !in ApiData(bbox, key, map["type" := "car"])
  {
  }

  /** The request data as the caller evidently intends it: the form
      parameters together with `bbox` and `key`, the latter two taking
      precedence. */
  function MergedApiData(bbox: string, key: string, parameters: Parameters): Parameters
  {
    parameters + map["bbox" := bbox, "key" := key]
  }

  /** With the merge, the as-written request is what remains once the form
      parameters are taken away, and every form parameter is sent. */
  lemma MergedExtendsApiData(bbox: string, key: string, parameters: Parameters)
    ensures MergedApiData(bbox, key, parameters) - (parameters.Keys - {"bbox", "key"})
      == ApiData(bbox, key, parameters)
    ensures forall name :: name in parameters ==> name in MergedApiData(bbox, key, parameters)
    ensures forall name :: name in parameters && name != "bbox" && name != "key" ==>
      MergedApiData(bbox, key, parameters)[name] == parameters[name]
    ensures MergedApiData(bbox, key, parameters)["bbox"] == bbox
    ensures MergedApiData(bbox, key, parameters)["key"] == key
  {
  }
}
