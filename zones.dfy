/**
 * The detection zones of the LD6001 and LD6001B components: an axis-aligned
 * rectangle in radar coordinates with inclusive bounds, and the count of
 * targets last found in it. Both components declare the same zone, the
 * LD6001B with its coordinates split into a base type.
 */
module Zones {
  import opened Bytes

  /** `ZoneCoordinates` and `Zone`: every field starts at 0. */
  datatype Zone = Zone(x1: int16, y1: int16, x2: int16, y2: int16, targetCount: byte)

  const DEFAULT_ZONE: Zone := Zone(0, 0, 0, 0, 0)

  /** `contains`: the point lies between the bounds on both axes, bounds included. */
  predicate Contains(z: Zone, x: int16, y: int16)
  {
    x >= z.x1 && x <= z.x2 && y >= z.y1 && y <= z.y2
  }

  /**
   * The test splits by axis: a point is in the zone when its projections
   * onto the zone's lower edge and onto its left edge both are.
   */
  lemma ContainsByAxis(z: Zone, x: int16, y: int16)
    requires z.x1 <= z.x2 && z.y1 <= z.y2
    ensures Contains(z, x, y) <==> Contains(z, x, z.y1) && Contains(z, z.x1, y)
  {
  }

  /** The bounds belong to the zone: a zone that is not inverted holds its four corners. */
  lemma CornersContained(z: Zone)
    requires z.x1 <= z.x2 && z.y1 <= z.y2
    ensures Contains(z, z.x1, z.y1) && Contains(z, z.x1, z.y2)
    ensures Contains(z, z.x2, z.y1) && Contains(z, z.x2, z.y2)
  {
  }

  /** A zone with a lower bound above its upper bound on either axis holds no point. */
  lemma InvertedIsEmpty(z: Zone, x: int16, y: int16)
    requires z.x1 > z.x2 || z.y1 > z.y2
    ensures !Contains(z, x, y)
  {
  }

  /** The default zone holds the origin and nothing else. */
  lemma DefaultHoldsOnlyOrigin(x: int16, y: int16)
    ensures Contains(DEFAULT_ZONE, x, y) <==> x == 0 && y == 0
  {
  }

  /**
   * Whether a zone holds a point does not depend on its target count, which
   * `contains` reads nothing of.
   */
  lemma ContainsIgnoresCount(z: Zone, count: byte, x: int16, y: int16)
    ensures Contains(z.(targetCount := count), x, y) <==> Contains(z, x, y)
  {
  }

  /**
   * A zone that holds two opposite corners of another zone holds every point
   * of it: rectangles are convex.
   */
  lemma CornersDecideInclusion(outer: Zone, inner: Zone, x: int16, y: int16)
    requires Contains(outer, inner.x1, inner.y1) && Contains(outer, inner.x2, inner.y2)
    requires Contains(inner, x, y)
    ensures Contains(outer, x, y)
  {
  }
}
