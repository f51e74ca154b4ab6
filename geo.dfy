/**
 * Value types shared by the road-graph index, the router, the optimizer and
 * the planner, and the two `hasher` overloads that key the hash maps.
 *
 * The string hash (`std::hash<string>`) is a foreign function; it is passed
 * around as a parameter `strHash`, so equal keys always hash equal and nothing
 * else is assumed about it.
 */
module Geo {

  /** A point, kept as its exact latitude and longitude text. */
  datatype GeoCoord = GeoCoord(latitudeText: string, longitudeText: string)

  /** A directed, named edge of the road graph. */
  datatype StreetSegment = StreetSegment(start: GeoCoord, end: GeoCoord, name: string)

  /** An item to deliver at a location. */
  datatype DeliveryRequest = DeliveryRequest(item: string, location: GeoCoord)

  /** Outcome of routing and of plan generation. */
  datatype DeliveryResult = DeliverySuccess | NoRoute | BadCoord

  /** hasher(GeoCoord): the string hash of the latitude text followed by the longitude text. */
  function CoordHash(strHash: string -> nat, g: GeoCoord): nat
  {
    strHash(g.latitudeText + g.longitudeText)
  }

  /** hasher(pair<GeoCoord,GeoCoord>) used for the router's edge-name map. */
  function CoordPairHash(strHash: string -> nat, p: (GeoCoord, GeoCoord)): nat
  {
    CoordHash(strHash, p.0)
  }

  /**
   * Only the first coordinate of an edge takes part in its hash, so every
   * edge leaving one coordinate falls in the same bucket, whatever its end.
   */
  lemma EdgeHashIgnoresEnd(strHash: string -> nat, from: GeoCoord, to1: GeoCoord, to2: GeoCoord)
    ensures CoordPairHash(strHash, (from, to1)) == CoordPairHash(strHash, (from, to2))
  {
  }

  /**
   * The coordinate hash concatenates the two texts without a separator, so
   * distinct coordinates whose texts concatenate alike always collide.
   */
  lemma CoordHashIgnoresSplit(strHash: string -> nat, g: GeoCoord, h: GeoCoord)
    requires g.latitudeText + g.longitudeText == h.latitudeText + h.longitudeText
    ensures CoordHash(strHash, g) == CoordHash(strHash, h)
  {
  }
}
