/** GeographyService: haversine distance, the radius-to-rectangle
    approximation used as a coarse store filter, and the rectangle that
    stands for metropolitan France.

    `java.lang.Math`'s transcendental functions cannot be computed here, so
    they arrive as a `MathLib` value and the model relies only on the facts
    `Lawful` lists. Coordinates are reals; `Math.round` is modelled exactly. */
module Geography {
  import opened Wrappers

  const EarthRadiusKm: real := 6371.0
  /** Kilometres per degree of latitude in the box approximation. */
  const KmPerDegree: real := 111.0
  /** `Math.PI`: the double nearest to pi, slightly below it. */
  const Pi: real := 3.141592653589793

  predicate ValidLatitude(lat: real) {
    -90.0 <= lat <= 90.0
  }

  predicate ValidLongitude(lon: real) {
    -180.0 <= lon <= 180.0
  }

  /** `Math.toRadians`. */
  function ToRadians(deg: real): real {
    deg * Pi / 180.0
  }

  datatype MathLib = MathLib(
    sin: real -> real,
    cos: real -> real,
    sqrt: real -> real,
    atan2: (real, real) -> real)

  /** The only facts about `Math.sin`, `Math.cos`, `Math.sqrt` and
      `Math.atan2` the model uses; each holds of the real functions. The
      cosine fact is strict at the ends because `Pi / 2` is below pi/2. */
  ghost predicate Lawful(m: MathLib) {
    && m.sin(0.0) == 0.0
    && (forall x, y :: y == -x ==> m.sin(y) == -m.sin(x))
    && (forall x :: -Pi / 2.0 <= x <= Pi / 2.0 ==> m.cos(x) > 0.0)
    && m.sqrt(0.0) == 0.0
    && m.sqrt(1.0) == 1.0
    && (forall x :: x >= 0.0 ==> m.sqrt(x) >= 0.0)
    && m.atan2(0.0, 1.0) == 0.0
    && (forall y, x :: y >= 0.0 ==> m.atan2(y, x) >= 0.0)
  }

  /** `Math.round`: the nearest integer, halves rounded up. */
  function JavaRound(x: real): (r: int)
    ensures r as real - 0.5 <= x < r as real + 0.5
  {
    (x + 0.5).Floor
  }

  /** The rounded nearest integer is unique. */
  lemma JavaRoundUnique(x: real, n: int)
    requires n as real - 0.5 <= x < n as real + 0.5
    ensures JavaRound(x) == n
  {
  }

  lemma SquareNonNegative(x: real)
    ensures x * x >= 0.0
  {
    if x < 0.0 {
      assert x * x == (-x) * (-x);
    }
  }

  lemma CosineOfLatitude(m: MathLib, lat: real)
    requires Lawful(m)
    requires ValidLatitude(lat)
    ensures m.cos(ToRadians(lat)) > 0.0
  {
    assert -Pi / 2.0 <= ToRadians(lat) <= Pi / 2.0;
  }

  /** The haversine term `a` of the two points. */
  function HaversineTerm(m: MathLib, lat1: real, lon1: real, lat2: real, lon2: real): real {
    var lat1Rad := ToRadians(lat1);
    var lat2Rad := ToRadians(lat2);
    var deltaLat := lat2Rad - lat1Rad;
    var deltaLon := ToRadians(lon2) - ToRadians(lon1);
    m.sin(deltaLat / 2.0) * m.sin(deltaLat / 2.0)
      + m.cos(lat1Rad) * m.cos(lat2Rad) * m.sin(deltaLon / 2.0) * m.sin(deltaLon / 2.0)
  }

  lemma HaversineTermNonNegative(m: MathLib, lat1: real, lon1: real, lat2: real, lon2: real)
    ensures Lawful(m) && ValidLatitude(lat1) && ValidLatitude(lat2) ==> HaversineTerm(m, lat1, lon1, lat2, lon2) >= 0.0
  {
    if Lawful(m) && ValidLatitude(lat1) && ValidLatitude(lat2) {
      var deltaLat := ToRadians(lat2) - ToRadians(lat1);
      var deltaLon := ToRadians(lon2) - ToRadians(lon1);
      var s1 := m.sin(deltaLat / 2.0);
      var s2 := m.sin(deltaLon / 2.0);
      var c1 := m.cos(ToRadians(lat1));
      var c2 := m.cos(ToRadians(lat2));
      CosineOfLatitude(m, lat1);
      CosineOfLatitude(m, lat2);
      SquareNonNegative(s1);
      SquareNonNegative(s2);
      assert c1 * c2 > 0.0;
      assert c1 * c2 * s2 * s2 == (c1 * c2) * (s2 * s2);
      assert (c1 * c2) * (s2 * s2) >= 0.0;
    }
  }

  /** `calculateHaversineDistance`: great-circle distance in whole
      kilometres on a sphere of radius 6371 km. Between valid latitudes it
      is a non-negative whole number. */
  function HaversineDistance(m: MathLib, lat1: real, lon1: real, lat2: real, lon2: real): (d: int)
    ensures Lawful(m) && ValidLatitude(lat1) && ValidLatitude(lat2) ==> d >= 0
  {
    var a := HaversineTerm(m, lat1, lon1, lat2, lon2);
    var c := 2.0 * m.atan2(m.sqrt(a), m.sqrt(1.0 - a));
    HaversineTermNonNegative(m, lat1, lon1, lat2, lon2);
    JavaRound(EarthRadiusKm * c)
  }

  /** A point is at distance 0 from itself. */
  lemma DistanceToSelf(m: MathLib, lat: real, lon: real)
    requires Lawful(m)
    ensures HaversineDistance(m, lat, lon, lat, lon) == 0
  {
    var lr := ToRadians(lat);
    assert (lr - lr) / 2.0 == 0.0;
    assert ToRadians(lon) - ToRadians(lon) == 0.0;
    assert HaversineTerm(m, lat, lon, lat, lon) == 0.0;
    assert m.sqrt(1.0 - 0.0) == 1.0;
    JavaRoundUnique(EarthRadiusKm * (2.0 * m.atan2(0.0, 1.0)), 0);
  }

  lemma SineSquareEven(m: MathLib, x: real)
    requires Lawful(m)
    ensures m.sin(-x) * m.sin(-x) == m.sin(x) * m.sin(x)
  {
    assert m.sin(-x) == -m.sin(x);
  }

  /** The distance does not depend on which point comes first. */
  lemma DistanceSymmetric(m: MathLib, lat1: real, lon1: real, lat2: real, lon2: real)
    requires Lawful(m)
    ensures HaversineDistance(m, lat1, lon1, lat2, lon2) == HaversineDistance(m, lat2, lon2, lat1, lon1)
  {
    var dLat := (ToRadians(lat2) - ToRadians(lat1)) / 2.0;
    var dLon := (ToRadians(lon2) - ToRadians(lon1)) / 2.0;
    assert (ToRadians(lat1) - ToRadians(lat2)) / 2.0 == -dLat;
    assert (ToRadians(lon1) - ToRadians(lon2)) / 2.0 == -dLon;
    SineSquareEven(m, dLat);
    SineSquareEven(m, dLon);
    var c1 := m.cos(ToRadians(lat1));
    var c2 := m.cos(ToRadians(lat2));
    var s := m.sin(dLon);
    assert c2 * c1 * m.sin(-dLon) * m.sin(-dLon) == c2 * c1 * (s * s);
    assert c1 * c2 * s * s == c2 * c1 * (s * s);
    assert HaversineTerm(m, lat1, lon1, lat2, lon2) == HaversineTerm(m, lat2, lon2, lat1, lon1);
  }

  // ---------------------------------------------------------------------
  // Bounding box

  /** Half-height of the box, in degrees of latitude. */
  function LatitudeDelta(radiusKm: real): real {
    radiusKm / KmPerDegree
  }

  /** Half-width of the box, in degrees of longitude at the centre's latitude. */
  function LongitudeDelta(m: MathLib, centerLat: real, radiusKm: real): real
    requires Lawful(m)
    requires ValidLatitude(centerLat)
  {
    CosineOfLatitude(m, centerLat);
    radiusKm / (KmPerDegree * m.cos(ToRadians(centerLat)))
  }

  lemma LongitudeDeltaSign(m: MathLib, centerLat: real, radiusKm: real)
    requires Lawful(m)
    requires ValidLatitude(centerLat)
    requires radiusKm >= 0.0
    ensures LongitudeDelta(m, centerLat, radiusKm) >= 0.0
  {
    CosineOfLatitude(m, centerLat);
  }

  lemma LongitudeDeltaMonotone(m: MathLib, centerLat: real, r1: real, r2: real)
    requires Lawful(m)
    requires ValidLatitude(centerLat)
    requires r1 <= r2
    ensures LongitudeDelta(m, centerLat, r1) <= LongitudeDelta(m, centerLat, r2)
  {
    CosineOfLatitude(m, centerLat);
    var k := KmPerDegree * m.cos(ToRadians(centerLat));
    assert k > 0.0;
    assert r2 / k - r1 / k == (r2 - r1) / k;
  }

  const MinLatIndex: nat := 0
  const MaxLatIndex: nat := 1
  const MinLonIndex: nat := 2
  const MaxLonIndex: nat := 3

  /** `calculateBoundingBox`: the rectangle `[minLat, maxLat, minLon, maxLon]`
      of points within `LatitudeDelta` degrees of latitude and
      `LongitudeDelta` degrees of longitude of the centre, cut to the valid
      Earth ranges. A latitude is inside exactly when it is a valid latitude
      within the half-height of the centre, and likewise for longitudes. */
  function CalculateBoundingBox(m: MathLib, centerLat: real, centerLon: real, maxDistanceKm: real): (box: seq<real>)
    requires Lawful(m)
    requires ValidLatitude(centerLat)
    ensures |box| == 4
    ensures box[MinLatIndex] >= -90.0 && box[MaxLatIndex] <= 90.0
    ensures box[MinLonIndex] >= -180.0 && box[MaxLonIndex] <= 180.0
    ensures forall lat :: box[MinLatIndex] <= lat <= box[MaxLatIndex] <==>
              ValidLatitude(lat)
              && centerLat - LatitudeDelta(maxDistanceKm) <= lat <= centerLat + LatitudeDelta(maxDistanceKm)
    ensures forall lon :: box[MinLonIndex] <= lon <= box[MaxLonIndex] <==>
              ValidLongitude(lon)
              && centerLon - LongitudeDelta(m, centerLat, maxDistanceKm) <= lon
              && lon <= centerLon + LongitudeDelta(m, centerLat, maxDistanceKm)
  {
    var latDelta := LatitudeDelta(maxDistanceKm);
    var lonDelta := LongitudeDelta(m, centerLat, maxDistanceKm);
    [ MaxReal(centerLat - latDelta, -90.0),
      MinReal(centerLat + latDelta, 90.0),
      MaxReal(centerLon - lonDelta, -180.0),
      MinReal(centerLon + lonDelta, 180.0) ]
  }

  /** For a non-negative radius the box contains its valid centre and is
      therefore never empty. */
  lemma BoundingBoxContainsCentre(m: MathLib, centerLat: real, centerLon: real, maxDistanceKm: real)
    requires Lawful(m)
    requires ValidLatitude(centerLat) && ValidLongitude(centerLon)
    requires maxDistanceKm >= 0.0
    ensures var box := CalculateBoundingBox(m, centerLat, centerLon, maxDistanceKm);
            && box[MinLatIndex] <= centerLat <= box[MaxLatIndex]
            && box[MinLonIndex] <= centerLon <= box[MaxLonIndex]
  {
    LongitudeDeltaSign(m, centerLat, maxDistanceKm);
    var box := CalculateBoundingBox(m, centerLat, centerLon, maxDistanceKm);
    assert ValidLatitude(centerLat) && ValidLongitude(centerLon);
  }

  /** Where no clamping happens, the latitude extent is centred on the
      centre with half-height radius / 111. */
  lemma LatitudeExtentSymmetric(m: MathLib, centerLat: real, centerLon: real, maxDistanceKm: real)
    requires Lawful(m)
    requires ValidLatitude(centerLat)
    requires -90.0 <= centerLat - maxDistanceKm / 111.0
    requires centerLat + maxDistanceKm / 111.0 <= 90.0
    ensures var box := CalculateBoundingBox(m, centerLat, centerLon, maxDistanceKm);
            && box[MaxLatIndex] - centerLat == maxDistanceKm / 111.0
            && centerLat - box[MinLatIndex] == maxDistanceKm / 111.0
  {
  }

  /** A larger radius yields a box that contains the smaller one. */
  lemma BoundingBoxMonotone(m: MathLib, centerLat: real, centerLon: real, r1: real, r2: real)
    requires Lawful(m)
    requires ValidLatitude(centerLat)
    requires r1 <= r2
    ensures var b1 := CalculateBoundingBox(m, centerLat, centerLon, r1);
            var b2 := CalculateBoundingBox(m, centerLat, centerLon, r2);
            && b2[MinLatIndex] <= b1[MinLatIndex] && b1[MaxLatIndex] <= b2[MaxLatIndex]
            && b2[MinLonIndex] <= b1[MinLonIndex] && b1[MaxLonIndex] <= b2[MaxLonIndex]
  {
    LongitudeDeltaMonotone(m, centerLat, r1, r2);
  }

  // ---------------------------------------------------------------------
  // Country envelope

  /** `isInFranceMetropolitaine`: the closed rectangle
      41.0 <= latitude <= 51.5, -5.5 <= longitude <= 9.5. */
  predicate IsInFranceMetropolitaine(latitude: real, longitude: real) {
    latitude >= 41.0 && latitude <= 51.5 && longitude >= -5.5 && longitude <= 9.5
  }

  /** The envelope's four corners belong to it, points just past each of its
      four edges do not, and everything in it is a valid coordinate. */
  lemma EnvelopeClosedAndOnEarth(latitude: real, longitude: real)
    ensures IsInFranceMetropolitaine(latitude, longitude) ==>
              ValidLatitude(latitude) && ValidLongitude(longitude)
    ensures IsInFranceMetropolitaine(41.0, -5.5) && IsInFranceMetropolitaine(41.0, 9.5)
    ensures IsInFranceMetropolitaine(51.5, -5.5) && IsInFranceMetropolitaine(51.5, 9.5)
    ensures !IsInFranceMetropolitaine(40.9999, 2.0) && !IsInFranceMetropolitaine(51.5001, 2.0)
    ensures !IsInFranceMetropolitaine(45.0, -5.5001) && !IsInFranceMetropolitaine(45.0, 9.5001)
  {
  }

  /** The reference points of the service's tests: six French cities are
      inside, London and Madrid are not. */
  lemma EnvelopeExamples()
    ensures IsInFranceMetropolitaine(48.8566, 2.3522)   // Paris
    ensures IsInFranceMetropolitaine(43.2964, 5.37)     // Marseille
    ensures IsInFranceMetropolitaine(50.6292, 3.0573)   // Lille
    ensures IsInFranceMetropolitaine(42.6886, 2.8948)   // Perpignan
    ensures IsInFranceMetropolitaine(48.3906, -4.4861)  // Brest
    ensures IsInFranceMetropolitaine(48.5833, 7.7458)   // Strasbourg
    ensures !IsInFranceMetropolitaine(51.5074, -0.1278) // London
    ensures !IsInFranceMetropolitaine(40.4168, -3.7038) // Madrid
  {
  }
}
