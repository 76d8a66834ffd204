/**
 * The back end's placeholder route service (backend/google_api.py): both
 * calls refuse to run without an API key; `get_route` returns a fixed route
 * and `get_route_times` one fixed-cost entry per consecutive pair of
 * classes. The key, read from the environment at start-up, is a parameter.
 */
module GoogleApi {
  import opened Wrappers

  /** The message of the ValueError raised when the key is unset. */
  const MissingKey := "GOOGLE_API_KEY environment variable is not set."

  /** `not api_key`: the key is unset or empty. */
  predicate KeyMissing(apiKey: Option<string>)
  {
    apiKey.None? || apiKey.value == ""
  }

  /** One route: its length in metres, its duration and its encoded polyline. */
  datatype Route = Route(distanceMeters: int, duration: string, encodedPolyline: string)

  /** The placeholder route. */
  const PlaceholderRoute := Route(772, "165s", "ipkcFfichVnP@j@BLoFVwM{E?")

  /** `get_route`: the placeholder route list, whatever the classes. */
  function GetRoute(apiKey: Option<string>, classList: seq<string>): (r: Result<seq<Route>, string>)
    ensures r.Err? <==> KeyMissing(apiKey)
    ensures r.Err? ==> r.error == MissingKey
  {
    if KeyMissing(apiKey) then Err(MissingKey) else Ok([PlaceholderRoute])
  }

  /** The route does not depend on the classes asked for. */
  lemma GetRouteConstant(apiKey: Option<string>, a: seq<string>, b: seq<string>)
    ensures GetRoute(apiKey, a) == GetRoute(apiKey, b)
    ensures !KeyMissing(apiKey) ==> GetRoute(apiKey, a) == Ok([Route(772, "165s", "ipkcFfichVnP@j@BLoFVwM{E?")])
  {
  }

  /** One travel entry between consecutive classes. */
  datatype TravelTime = TravelTime(from: string, to: string, travelTime: string, distance: string)

  /** The entries for every consecutive pair of `classes`, in order. */
  function Pairs(classes: seq<string>): (r: seq<TravelTime>)
    ensures |r| == Predecessor(|classes|)
  {
    if |classes| < 2 then []
    else [TravelTime(classes[0], classes[1], "1000", "800")] + Pairs(classes[1..])
  }

  /** `get_route_times`: the pair entries, or the missing-key error. */
  function GetRouteTimes(apiKey: Option<string>, classList: seq<string>): (r: Result<seq<TravelTime>, string>)
    ensures r.Err? <==> KeyMissing(apiKey)
    ensures r.Err? ==> r.error == MissingKey
  {
    if KeyMissing(apiKey) then Err(MissingKey) else Ok(Pairs(classList))
  }

  /** `max(n - 1, 0)`. */
  function Predecessor(n: nat): nat
  {
    if n == 0 then 0 else n - 1
  }

  /**
   * A list of `n` classes gives `max(n - 1, 0)` entries; entry `i` goes from
   * class `i` to class `i + 1`, at 1000 seconds and 800 feet.
   */
  lemma {:induction false} PairsShape(classes: seq<string>)
    ensures |Pairs(classes)| == Predecessor(|classes|)
    ensures forall i :: 0 <= i < |Pairs(classes)| ==>
      Pairs(classes)[i] == TravelTime(classes[i], classes[i + 1], "1000", "800")
  {
    if |classes| >= 2 {
      PairsShape(classes[1..]);
    }
  }

  /** The entries form a chain: each ends where the next begins. */
  lemma PairsChain(classes: seq<string>)
    ensures forall i :: 0 <= i < |Pairs(classes)| - 1 ==> Pairs(classes)[i].to == Pairs(classes)[i + 1].from
  {
    PairsShape(classes);
  }

  /** With a key, no class or one class gives no entries. */
  lemma ShortListsEmpty(apiKey: Option<string>, classList: seq<string>)
    requires !KeyMissing(apiKey) && |classList| <= 1
    ensures GetRouteTimes(apiKey, classList) == Ok([])
  {
  }
}
