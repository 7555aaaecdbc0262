/**
 * Landing locations (`Location`): an immutable latitude/longitude pair,
 * validated on construction, with a great-circle distance and an
 * approximate equality.
 *
 * Coordinates are `real`s. The haversine formula itself is not modelled:
 * every distance is taken from a `Metric` that callers supply, and the
 * only property of it the catalog relies on is that it is never negative.
 */
module Locations {
  import opened Results

  datatype Location = Location(latitude: real, longitude: real)

  predicate LatitudeInRange(latitude: real) { -90.0 <= latitude <= 90.0 }

  predicate LongitudeInRange(longitude: real) { -180.0 <= longitude <= 180.0 }

  /** A location the constructor can produce. */
  predicate Valid(l: Location)
  {
    LatitudeInRange(l.latitude) && LongitudeInRange(l.longitude)
  }

  /**
   * The constructor: latitude is checked first, so a bad latitude is
   * reported whatever the longitude; the getters give back the arguments.
   */
  function NewLocation(latitude: real, longitude: real): (r: Result<Location>)
    ensures r.Ok? <==> LatitudeInRange(latitude) && LongitudeInRange(longitude)
    ensures !LatitudeInRange(latitude) ==> r == Err(LatitudeOutOfRange)
    ensures LatitudeInRange(latitude) && !LongitudeInRange(longitude) ==> r == Err(LongitudeOutOfRange)
    ensures r.Ok? ==> Valid(r.value) && r.value.latitude == latitude && r.value.longitude == longitude
  {
    if !LatitudeInRange(latitude) then Err(LatitudeOutOfRange)
    else if !LongitudeInRange(longitude) then Err(LongitudeOutOfRange)
    else Ok(Location(latitude, longitude))
  }

  /** A distance between two locations (the haversine great-circle distance, in kilometres). */
  type Metric = (Location, Location) -> real

  ghost predicate NonNegative(metric: Metric)
  {
    forall a, b :: metric(a, b) >= 0.0
  }

  /** `getDistance`: refused for a `null` argument, otherwise the metric's value. */
  function GetDistance(from: Location, to: Option<Location>, haversine: Metric): (r: Result<real>)
    ensures r.Err? <==> to.None?
    ensures r.Err? ==> r.error == UndefinedLocation
    ensures r.Ok? ==> r.value == haversine(from, to.value)
    ensures r.Ok? && NonNegative(haversine) ==> r.value >= 0.0
  {
    match to
    case None => Err(UndefinedLocation)
    case Some(l) => Ok(haversine(from, l))
  }

  function Abs(x: real): real { if x < 0.0 then -x else x }

  const Tolerance: real := 0.00001

  /**
   * `equals` as written: the longitude term subtracts the argument's
   * longitude from itself, so only the latitudes are compared. A `null`
   * argument is never equal.
   */
  predicate EqualsAsWritten(a: Location, obj: Option<Location>)
  {
    match obj
    case None => false
    case Some(b) => Abs(a.latitude - b.latitude) < Tolerance && Abs(b.longitude - b.longitude) < Tolerance
  }

  /** As written, equality depends on the latitudes alone. */
  lemma EqualsAsWrittenIgnoresLongitude(a: Location, b: Location)
    ensures EqualsAsWritten(a, Some(b)) <==> Abs(a.latitude - b.latitude) < Tolerance
  {
  }

  /** Two points half a world apart on the equator compare equal as written. */
  lemma EqualsAsWrittenCounterexample()
    ensures EqualsAsWritten(Location(0.0, 0.0), Some(Location(0.0, 180.0)))
    ensures !Equals(Location(0.0, 0.0), Some(Location(0.0, 180.0)))
  {
  }

  /** `equals` as documented: both coordinates within the tolerance. */
  predicate Equals(a: Location, obj: Option<Location>)
  {
    match obj
    case None => false
    case Some(b) => Abs(a.latitude - b.latitude) < Tolerance && Abs(a.longitude - b.longitude) < Tolerance
  }

  /**
   * The corrected equality is reflexive and symmetric, and bounds both
   * coordinate differences; unlike the equality as written, it tells apart
   * points on the same parallel whose longitudes differ.
   */
  lemma EqualsProperties(a: Location, b: Location)
    ensures Equals(a, Some(a))
    ensures Equals(a, Some(b)) <==> Equals(b, Some(a))
    ensures Equals(a, Some(b)) ==>
      -Tolerance < a.latitude - b.latitude < Tolerance &&
      -Tolerance < a.longitude - b.longitude < Tolerance
    ensures a.latitude == b.latitude && Abs(a.longitude - b.longitude) >= Tolerance ==>
      EqualsAsWritten(a, Some(b)) && !Equals(a, Some(b))
  {
  }
}
