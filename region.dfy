/** The test of a 3D Tiles `region` bounding volume [west, south, east, north, minHeight,
    maxHeight] against the target box (lon_min, lat_min, lon_max, lat_max). */
module Region {

  datatype Box = Box(lonMin: real, latMin: real, lonMax: real, latMax: real)

  /** Closed intervals [lo1, hi1] and [lo2, hi2] share a point or touch. */
  predicate Overlap(lo1: real, hi1: real, lo2: real, hi2: real) {
    lo1 <= hi2 && lo2 <= hi1
  }

  /** bbox_intersect: only the first four entries of the region are read; the rectangles
      are apart only when the box lies strictly to one side on either axis. */
  function BboxIntersect(region: seq<real>, box: Box): (r: bool)
    requires |region| >= 4
    ensures r <==> (Overlap(region[0], region[2], box.lonMin, box.lonMax)
                    && Overlap(region[1], region[3], box.latMin, box.latMax))
  {
    var west, south, east, north := region[0], region[1], region[2], region[3];
    if box.lonMax < west || box.lonMin > east then false
    else if box.latMax < south || box.latMin > north then false
    else true
  }

  predicate InRegion(region: seq<real>, lon: real, lat: real)
    requires |region| >= 4
  {
    region[0] <= lon <= region[2] && region[1] <= lat <= region[3]
  }

  predicate InBox(box: Box, lon: real, lat: real) {
    box.lonMin <= lon <= box.lonMax && box.latMin <= lat <= box.latMax
  }

  /** For non-degenerate rectangles, the test is exactly "the two closed rectangles share
      a point". */
  lemma IntersectIffCommonPoint(region: seq<real>, box: Box)
    requires |region| >= 4
    requires region[0] <= region[2] && region[1] <= region[3]
    requires box.lonMin <= box.lonMax && box.latMin <= box.latMax
    ensures BboxIntersect(region, box) <==>
      exists lon, lat :: InRegion(region, lon, lat) && InBox(box, lon, lat)
  {
    if BboxIntersect(region, box) {
      var lon := if region[0] >= box.lonMin then region[0] else box.lonMin;
      var lat := if region[1] >= box.latMin then region[1] else box.latMin;
      assert InRegion(region, lon, lat) && InBox(box, lon, lat);
    }
  }

  /** The height entries (and anything after them) never change the result. */
  lemma HeightsIgnored(region: seq<real>, region': seq<real>, box: Box)
    requires |region| >= 4 && |region'| >= 4 && region[..4] == region'[..4]
    ensures BboxIntersect(region, box) == BboxIntersect(region', box)
  {
    assert region[0] == region[..4][0] && region'[0] == region'[..4][0];
    assert region[1] == region[..4][1] && region'[1] == region'[..4][1];
    assert region[2] == region[..4][2] && region'[2] == region'[..4][2];
    assert region[3] == region[..4][3] && region'[3] == region'[..4][3];
  }

  /** Exchanging the roles of region and box gives the same answer. */
  lemma Symmetric(region: seq<real>, box: Box)
    requires |region| >= 4
    ensures BboxIntersect(region, box) ==
      BboxIntersect([box.lonMin, box.latMin, box.lonMax, box.latMax],
                    Box(region[0], region[1], region[2], region[3]))
  {
  }

  /** A region sharing only its west edge with the box's east edge still intersects;
      one strictly east of the box does not. */
  lemma EdgeCases(region: seq<real>, box: Box)
    requires |region| >= 4
    requires Overlap(region[1], region[3], box.latMin, box.latMax)
    requires box.lonMin <= box.lonMax && region[0] <= region[2]
    ensures region[0] == box.lonMax ==> BboxIntersect(region, box)
    ensures region[0] > box.lonMax ==> !BboxIntersect(region, box)
  {
  }

  /** TARGET_BBOX: the Shibuya Scramble crossing, in degrees. */
  const ShibuyaBox := Box(139.6996, 35.6588, 139.7014, 35.6602)

  /** The Shibuya Scramble target box against a degree-valued region that lies south-east
      of the box centre and overlaps the box. */
  lemma ShibuyaExample()
    ensures BboxIntersect([139.70, 35.65, 139.71, 35.66, 0.0, 100.0], ShibuyaBox)
  {
  }

  /** math.pi, the double nearest to pi. */
  const Pi: real := 3.141592653589793

  /** math.degrees and math.radians. */
  function Degrees(rad: real): real {
    rad * 180.0 / Pi
  }

  function Radians(deg: real): real {
    deg * Pi / 180.0
  }

  /** Radians followed by Degrees gives back the angle. */
  lemma DegreesOfRadians(deg: real)
    ensures Degrees(Radians(deg)) == deg
  {
  }

  /** The first four entries of a region, converted from radians to degrees. */
  function DegreeRegion(region: seq<real>): (d: seq<real>)
    requires |region| >= 4
    ensures |d| == 4
  {
    [Degrees(region[0]), Degrees(region[1]), Degrees(region[2]), Degrees(region[3])]
  }

  /** Section "Region" of the 3D Tiles 1.0 bounding volumes gives longitudes and latitudes
      in radians, so a longitude of a conforming region is at most pi. The code as written
      compares such a region with the degree-valued target box, so no conforming region
      ever intersects the Shibuya box. */
  lemma RadianRegionMissesShibuya(region: seq<real>)
    requires |region| >= 4 && region[2] <= Pi
    ensures !BboxIntersect(region, ShibuyaBox)
  {
  }

  /** The tile over the Shibuya crossing, stored in radians as 3D Tiles requires: the
      test as written rejects it, the corrected test accepts it. */
  lemma ShibuyaTileMissedAsWritten()
    ensures var tile := [Radians(139.70), Radians(35.65), Radians(139.71), Radians(35.66), 0.0, 100.0];
      && !BboxIntersect(tile, ShibuyaBox)
      && BboxIntersectRadians(tile, ShibuyaBox)
  {
    var tile := [Radians(139.70), Radians(35.65), Radians(139.71), Radians(35.66), 0.0, 100.0];
    DegreesOfRadians(139.70);
    DegreesOfRadians(35.65);
    DegreesOfRadians(139.71);
    DegreesOfRadians(35.66);
    assert DegreeRegion(tile) == [139.70, 35.65, 139.71, 35.66];
  }

  /** bbox_intersect as evidently intended: the region is converted to degrees before it
      is compared with the degree-valued box. */
  function BboxIntersectRadians(region: seq<real>, box: Box): (r: bool)
    requires |region| >= 4
    ensures r <==> (Overlap(Degrees(region[0]), Degrees(region[2]), box.lonMin, box.lonMax)
                    && Overlap(Degrees(region[1]), Degrees(region[3]), box.latMin, box.latMax))
  {
    BboxIntersect(DegreeRegion(region), box)
  }

  /** A tile whose region is a degree rectangle stored in radians is selected exactly when
      that degree rectangle meets the box. */
  lemma DegreeTilesMatch(deg: seq<real>, box: Box)
    requires |deg| >= 4
    ensures BboxIntersectRadians([Radians(deg[0]), Radians(deg[1]), Radians(deg[2]), Radians(deg[3])], box)
        == BboxIntersect(deg, box)
  {
    DegreesOfRadians(deg[0]);
    DegreesOfRadians(deg[1]);
    DegreesOfRadians(deg[2]);
    DegreesOfRadians(deg[3]);
  }

  /** For non-degenerate rectangles the corrected test holds exactly when the region, in
      degrees, and the box share a point. */
  lemma RadiansIntersectIffCommonPoint(region: seq<real>, box: Box)
    requires |region| >= 4
    requires region[0] <= region[2] && region[1] <= region[3]
    requires box.lonMin <= box.lonMax && box.latMin <= box.latMax
    ensures BboxIntersectRadians(region, box) <==>
      exists lon, lat :: InRegion(DegreeRegion(region), lon, lat) && InBox(box, lon, lat)
  {
    IntersectIffCommonPoint(DegreeRegion(region), box);
  }
}
