/** The record the repository stores: `PatientLocation` (data/PatientLocation.kt). */
module Records {
  import opened Wrappers
  import opened Text

  /** A coordinate: a Kotlin `Double`, kept abstract. */
  type Coord(==, !new)

  /**
   * How coordinates are written and read back: `Double.toString` and
   * `String.toDoubleOrNull`, supplied from outside the model.
   */
  datatype CoordFormat = CoordFormat(show: Coord -> string, parse: string -> Option<Coord>)

  /** One patient location; `bil` is its identifier. */
  datatype PatientLocation = PatientLocation(
    bil: Int32,
    zon: string,
    region: string,
    address: string,
    patients: Int32,
    latitude: Coord,
    longitude: Coord,
    contactName: string,
    contactPhone: string,
    status: string
  )
}
