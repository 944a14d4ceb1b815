/** Values shared by the whole model: optional values, coordinates, roads and
    the answers of the external services (geocoder, road manager). */
module Geo {

  datatype Option<T> = None | Some(value: T)

  /** A geographic point (latitude and longitude in degrees), as held by an
      Android `Location` or an osmdroid `GeoPoint`. Both carry the same pair. */
  datatype Coordinate = Coordinate(latitude: real, longitude: real)

  /** What the OSRM road manager answers for a list of waypoints: the shape of
      the road as an ordered list of points. The road manager itself is a
      network call and is passed into the model as a function. */
  datatype Road = Road(shape: seq<Coordinate>)

  /** The answer of one geocoder lookup: the (possibly empty) list of results,
      or the exception the call threw. A `null` list is the same as an empty
      one for the code that consumes it. */
  datatype GeocoderResult<T> = Answered(results: seq<T>) | Threw

  /** `Location.distanceTo`, a geodesic distance in meters computed by the
      platform. It is not modelled: every operation takes it as a parameter. */
  type Distance = (Coordinate, Coordinate) -> real

  /** `RoadManager.getRoad` for the two waypoints start and destination. */
  type Router = (Coordinate, Coordinate) -> Road
}
