/** The edge-weight rule: plain distance, or distance scaled by how busy the
    road class is when the caller asks for the quietest route. */
module Weight {
  import opened MapData

  /** Quietness factor per `highway` tag value (lower is quieter). */
  const RoadQuietness: map<string, real> := map[
    "motorway" := 5.0,
    "trunk" := 4.0,
    "primary" := 3.0,
    "secondary" := 2.0,
    "residential" := 1.0,
    "service" := 1.0,
    "footway" := 0.5,
    "cycleway" := 0.5
  ]

  /** Factor used for a tag the table does not list. */
  const DefaultQuietness: real := 3.0

  /** The only path type that selects quietness weighting. */
  const QuietnessPathType: string := "quietness"

  /** Table lookup with the default: total, never fails. */
  function QuietnessFactor(highway: string): (f: real)
    ensures 0.5 <= f <= 5.0
    ensures highway in RoadQuietness ==> f == RoadQuietness[highway]
    ensures highway !in RoadQuietness ==> f == DefaultQuietness
  {
    if highway in RoadQuietness then RoadQuietness[highway] else DefaultQuietness
  }

  /** Weight of one segment of a way tagged `highway` whose ends are
      `distance` apart, for the requested path type (None: not given). */
  function EdgeWeight(pathType: Option<string>, highway: string, distance: real): (w: real)
    ensures pathType != Some(QuietnessPathType) ==> w == distance
    ensures pathType == Some(QuietnessPathType) ==> w == distance * QuietnessFactor(highway)
    ensures 0.0 <= distance ==> distance * 0.5 <= w <= distance * 5.0
  {
    if pathType == Some(QuietnessPathType) then distance * QuietnessFactor(highway)
    else distance
  }

  /** An unlisted tag weighs three times its distance in quietness mode. */
  lemma UnknownTagWeighsThreefold(highway: string, distance: real)
    requires highway !in RoadQuietness
    ensures EdgeWeight(Some(QuietnessPathType), highway, distance) == 3.0 * distance
  {
  }

  /** Any path type other than "quietness" ignores the tag. */
  lemma OtherPathTypesIgnoreTag(pathType: Option<string>, h1: string, h2: string, distance: real)
    requires pathType != Some(QuietnessPathType)
    ensures EdgeWeight(pathType, h1, distance) == EdgeWeight(pathType, h2, distance) == distance
  {
  }

  /** Non-negative distances give non-negative weights. */
  lemma WeightNonNegative(pathType: Option<string>, highway: string, distance: real)
    requires 0.0 <= distance
    ensures 0.0 <= EdgeWeight(pathType, highway, distance)
  {
  }

  /** For a fixed tag and path type, weight is strictly increasing in distance. */
  lemma WeightStrictlyIncreasing(pathType: Option<string>, highway: string, d1: real, d2: real)
    requires d1 < d2
    ensures EdgeWeight(pathType, highway, d1) < EdgeWeight(pathType, highway, d2)
  {
    var f := QuietnessFactor(highway);
    assert d2 * f - d1 * f == (d2 - d1) * f;
  }

  /** For a fixed distance in quietness mode, a larger factor never gives a
      smaller weight. */
  lemma WeightMonotoneInFactor(h1: string, h2: string, distance: real)
    requires 0.0 <= distance
    requires QuietnessFactor(h1) <= QuietnessFactor(h2)
    ensures EdgeWeight(Some(QuietnessPathType), h1, distance)
         <= EdgeWeight(Some(QuietnessPathType), h2, distance)
  {
    var f1, f2 := QuietnessFactor(h1), QuietnessFactor(h2);
    assert distance * f2 - distance * f1 == distance * (f2 - f1);
  }
}
