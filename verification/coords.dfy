/** A position as the service carries it: latitude, longitude and accuracy,
    each a Kotlin `Double`. A `Double` is represented by the text
    `Double.toString` gives for it; that text is what string templates such
    as `"$latitude"` insert, and `String.toDouble` reads it back to the same
    value.
 */
module Coords {
  /** A `Double` as its `toString()` text. */
  type Numeral = string

  datatype Coord = Coord(lat: Numeral, lng: Numeral, acc: Numeral)

  /** `onStartCommand`'s fallbacks for a missing extra, and the accuracy the
      daemon and the shell fallback use when a command has none. */
  const DefaultCoordinate: Numeral := "0.0"
  const DefaultAccuracy: Numeral := "10.0"

  /** `"$latitude,$longitude,$accuracy"`. */
  function Csv(c: Coord): string
  {
    c.lat + "," + c.lng + "," + c.acc
  }

  /** `Double.toString` never produces a comma, so a numeral is one field of
      a comma-separated line. */
  predicate CommaFree(n: Numeral) {
    forall i :: 0 <= i < |n| ==> n[i] != ','
  }

  predicate WellFormed(c: Coord) {
    CommaFree(c.lat) && CommaFree(c.lng) && CommaFree(c.acc)
  }
}
