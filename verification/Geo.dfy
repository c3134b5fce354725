// Coordinates as the firmware holds them, a finite double or else NaN or an infinity, and the
// ownship reference.
module Geo {

  datatype Float = Finite(num: real) | NotFinite

  // The WGS-84 envelope, limits included.
  predicate InBounds(lat: Float, lon: Float) {
    lat.Finite? && lon.Finite? && -90.0 <= lat.num <= 90.0 && -180.0 <= lon.num <= 180.0
  }

  // The one live ownship reference (components/ownship/ownship.c).
  datatype Source = NoSource | Manual | Gps
  datatype Ref = Ref(valid: bool, lat: Float, lon: Float, source: Source)
}
