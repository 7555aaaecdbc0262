/**
 * Failure-carrying values shared by the whole catalog.
 *
 * Every `IllegalArgumentException` the catalog can throw becomes an `Error`
 * value; the constructor names the message the exception carries, so that a
 * caller can tell, for example, a rejected latitude from a rejected longitude.
 * A Java `null` result becomes `None`.
 */
module Results {

  datatype Option<+T> = None | Some(value: T)

  /** Why an operation was refused (one constructor per throw site). */
  datatype Error =
    | LatitudeOutOfRange     // Location constructor, latitude outside [-90, 90]
    | LongitudeOutOfRange    // Location constructor, longitude outside [-180, 180]
    | UndefinedLocation      // Location.getDistance / MeteoriteList.getByLocation on null
    | InvalidIdentity        // Meteorite constructor: empty name or non-positive id
    | InvalidMass            // Meteorite.setMass with a non-positive mass
    | InvalidYear            // Meteorite.setYear outside 1..2019
    | NullMeteorite          // MeteoriteLinkedList.add(null)
    | EmptyList              // MeteoriteLinkedList(MeteoriteList) on null
    | NegativeMass           // MeteoriteList.getByMass with a negative mass or delta
    | NegativeYear           // MeteoriteList.getByYear with a negative year

  /** The value of a call that either returns normally or throws. */
  datatype Result<+T> = Ok(value: T) | Err(error: Error)

  /** The outcome of a `void` call that may throw. */
  datatype Outcome = Pass | Fail(error: Error)
}
