/** `MountainProximityService`: the mountain at or nearest to a position,
    looked up through a `SpatialIndex` built with cells of 0.1 degree.
    The great-circle distance is a parameter `dist(fromLat, fromLon, toLat,
    toLon)`; nothing is assumed about it. */
module MountainProximity {
  import opened Wrappers
  import opened Seqs
  import opened SpatialIndexing
  import Coordinates
  import Places

  /** Distance in kilometres from the first position to the second. */
  type Distance = (real, real, real, real) -> real

  /** The threshold `maxDistanceKm`: a number of kilometres, or `Infinity`. */
  datatype Limit = Km(km: real) | Unbounded

  /** The default threshold of 5 km. */
  const DefaultThreshold: Limit := Km(5.0)

  /** The cell size the service builds its index with. */
  const DefaultGridSize: real := 0.1

  /** `dist <= maxDistanceKm`. */
  predicate Admits(d: real, limit: Limit) {
    limit.Unbounded? || d <= limit.km
  }

  /** `dist < minDist`. */
  predicate Below(d: real, bound: Limit) {
    bound.Unbounded? || d < bound.km
  }

  /** `minDist = maxDistanceKm + 1` (still `Infinity` for `Infinity`). */
  function InitialBound(limit: Limit): Limit {
    if limit.Km? then Km(limit.km + 1.0) else Unbounded
  }

  /** The value of `minDist` once `best` is the candidate kept so far. */
  function Bound(ds: seq<real>, best: Option<nat>, limit: Limit): Limit
    requires best.Some? ==> best.value < |ds|
  {
    if best.Some? then Km(ds[best.value]) else InitialBound(limit)
  }

  /** Candidate `i` is admissible, no admissible candidate is closer, and
      every earlier admissible candidate is strictly farther. */
  predicate IsFirstNearest(ds: seq<real>, limit: Limit, i: nat) {
    i < |ds| && Admits(ds[i], limit) &&
    (forall j :: 0 <= j < |ds| && Admits(ds[j], limit) ==> ds[i] <= ds[j]) &&
    (forall j :: 0 <= j < i && Admits(ds[j], limit) ==> ds[i] < ds[j])
  }

  /** The index the scan keeps after seeing the distances `ds` in order. */
  function Nearest(ds: seq<real>, limit: Limit): (best: Option<nat>)
    ensures best.Some? ==> best.value < |ds|
    decreases |ds|
  {
    if ds == [] then None
    else
      var init := ds[..|ds| - 1];
      var prev := Nearest(init, limit);
      var d := ds[|ds| - 1];
      if Admits(d, limit) && Below(d, Bound(init, prev, limit)) then Some(|ds| - 1) else prev
  }

  /** The scan finds nothing exactly when no candidate is admissible, and
      otherwise the first of the closest admissible candidates: the initial
      bound `maxDistanceKm + 1` never turns an admissible candidate away. */
  lemma {:induction false} NearestSpec(ds: seq<real>, limit: Limit)
    ensures Nearest(ds, limit).None? <==> forall i :: 0 <= i < |ds| ==> !Admits(ds[i], limit)
    ensures Nearest(ds, limit).Some? ==> IsFirstNearest(ds, limit, Nearest(ds, limit).value)
    decreases |ds|
  {
    if ds != [] {
      var n := |ds| - 1;
      var init := ds[..n];
      NearestSpec(init, limit);
      assert forall j :: 0 <= j < n ==> init[j] == ds[j];
      var prev := Nearest(init, limit);
      if prev.Some? {
        assert IsFirstNearest(init, limit, prev.value);
      }
    }
  }

  /** Only one candidate can be the first nearest, so the scan returns it. */
  lemma NearestIsFirstNearest(ds: seq<real>, limit: Limit, i: nat)
    requires IsFirstNearest(ds, limit, i)
    ensures Nearest(ds, limit) == Some(i)
  {
    NearestSpec(ds, limit);
    assert IsFirstNearest(ds, limit, Nearest(ds, limit).value);
  }

  /** `a` is a threshold no larger than `b`. */
  predicate AtMost(a: Limit, b: Limit) {
    b.Unbounded? || (a.Km? && a.km <= b.km)
  }

  /** Raising the threshold keeps a candidate already found: the new
      admissible candidates are all farther than the found one. */
  lemma NearestWiden(ds: seq<real>, small: Limit, large: Limit)
    requires AtMost(small, large)
    requires Nearest(ds, small).Some?
    ensures Nearest(ds, large) == Nearest(ds, small)
  {
    NearestSpec(ds, small);
    var i := Nearest(ds, small).value;
    forall j | 0 <= j < |ds| && Admits(ds[j], large) ensures ds[i] <= ds[j] && (j < i ==> ds[i] < ds[j]) {
      if !Admits(ds[j], small) {
        assert small.Km? && ds[i] <= small.km < ds[j];
      }
    }
    NearestIsFirstNearest(ds, large, i);
  }

  /** The distance from `(lat, lon)` to a located mountain. */
  function DistanceTo(lat: real, lon: real, m: MountainData, dist: Distance): real
    requires HasCoordinates(m)
  {
    dist(lat, lon, m.lat.value, m.lon.value)
  }

  predicate AllLocated(ms: seq<MountainData>) {
    forall i :: 0 <= i < |ms| ==> HasCoordinates(ms[i])
  }

  /** The distances the loop computes, one per candidate, in order. */
  function Distances(lat: real, lon: real, ms: seq<MountainData>, dist: Distance): (ds: seq<real>)
    requires AllLocated(ms)
    ensures |ds| == |ms|
    decreases |ms|
  {
    if ms == [] then []
    else Distances(lat, lon, ms[..|ms| - 1], dist) + [DistanceTo(lat, lon, ms[|ms| - 1], dist)]
  }

  lemma {:induction false} DistancesAt(lat: real, lon: real, ms: seq<MountainData>, dist: Distance)
    requires AllLocated(ms)
    ensures forall i :: 0 <= i < |ms| ==> Distances(lat, lon, ms, dist)[i] == DistanceTo(lat, lon, ms[i], dist)
    decreases |ms|
  {
    if ms != [] {
      var init := ms[..|ms| - 1];
      DistancesAt(lat, lon, init, dist);
      assert forall i :: 0 <= i < |init| ==> init[i] == ms[i];
    }
  }

  /** One more candidate: the scan compares its distance with the bound
      left by the candidates before it. */
  lemma ScanStep(lat: real, lon: real, ms: seq<MountainData>, k: nat, dist: Distance, limit: Limit)
    requires AllLocated(ms) && k < |ms|
    ensures var seen := Distances(lat, lon, ms[..k], dist);
      var d := DistanceTo(lat, lon, ms[k], dist);
      var prev := Nearest(seen, limit);
      && Distances(lat, lon, ms[..k + 1], dist) == seen + [d]
      && Nearest(seen + [d], limit) == (if Admits(d, limit) && Below(d, Bound(seen, prev, limit)) then Some(k) else prev)
      && (prev.Some? ==> Bound(seen + [d], prev, limit) == Bound(seen, prev, limit))
  {
    var seen := Distances(lat, lon, ms[..k], dist);
    var d := DistanceTo(lat, lon, ms[k], dist);
    assert ms[..k + 1][..k] == ms[..k];
    assert (seen + [d])[..k] == seen;
  }

  /** The candidate the scan keeps, if any. */
  function Closest(lat: real, lon: real, candidates: seq<MountainData>, limit: Limit, dist: Distance): (r: Option<MountainData>)
    requires AllLocated(candidates)
  {
    var best := Nearest(Distances(lat, lon, candidates, dist), limit);
    if best.Some? then Some(candidates[best.value]) else None
  }

  /** The loop of `findNearestMountain`: `minDist` starts at
      `maxDistanceKm + 1`; a candidate replaces the one kept when its
      distance is within the threshold and strictly below `minDist`. */
  method Scan(lat: real, lon: real, candidates: seq<MountainData>, limit: Limit, dist: Distance) returns (nearest: Option<MountainData>)
    requires AllLocated(candidates)
    ensures nearest == Closest(lat, lon, candidates, limit, dist)
  {
    var minDist := InitialBound(limit);
    nearest := None;
    ghost var best: Option<nat> := None;
    for k := 0 to |candidates|
      invariant best == Nearest(Distances(lat, lon, candidates[..k], dist), limit)
      invariant best.Some? ==> best.value < k
      invariant minDist == Bound(Distances(lat, lon, candidates[..k], dist), best, limit)
      invariant nearest == if best.Some? then Some(candidates[best.value]) else None
    {
      var mountain := candidates[k];
      var d := dist(lat, lon, mountain.lat.value, mountain.lon.value);
      ScanStep(lat, lon, candidates, k, dist, limit);
      if Admits(d, limit) && Below(d, minDist) {
        minDist := Km(d);
        nearest := Some(mountain);
        best := Some(k);
      }
    }
    assert candidates[..|candidates|] == candidates;
  }

  /** The scan keeps nothing exactly when no candidate is within the
      threshold, and otherwise the first of the closest admissible
      candidates in candidate order. */
  lemma ClosestSpec(lat: real, lon: real, candidates: seq<MountainData>, limit: Limit, dist: Distance)
    requires AllLocated(candidates)
    ensures var r := Closest(lat, lon, candidates, limit, dist);
      && (r.None? <==> forall i :: 0 <= i < |candidates| ==> !Admits(DistanceTo(lat, lon, candidates[i], dist), limit))
      && (r.Some? ==>
            exists i :: 0 <= i < |candidates| && r.value == candidates[i] &&
              IsFirstNearest(Distances(lat, lon, candidates, dist), limit, i))
  {
    NearestSpec(Distances(lat, lon, candidates, dist), limit);
    DistancesAt(lat, lon, candidates, dist);
  }

  /** The same stated over a pool `ms` whose members passing `keep` are
      exactly the candidates: the kept mountain is a member of the pool
      within the threshold, no such member is closer, and nothing is kept
      exactly when no such member is within the threshold. */
  lemma ClosestAmong(lat: real, lon: real, candidates: seq<MountainData>, limit: Limit, dist: Distance,
                     ms: seq<MountainData>, keep: MountainData -> bool)
    requires AllLocated(candidates)
    requires forall m :: m in candidates <==> m in ms && keep(m)
    ensures var r := Closest(lat, lon, candidates, limit, dist);
      && (r.None? <==> forall j :: 0 <= j < |ms| && keep(ms[j]) && HasCoordinates(ms[j]) ==>
            !Admits(DistanceTo(lat, lon, ms[j], dist), limit))
      && (r.Some? ==>
            && r.value in ms && keep(r.value) && HasCoordinates(r.value)
            && Admits(DistanceTo(lat, lon, r.value, dist), limit)
            && forall j :: 0 <= j < |ms| && keep(ms[j]) && HasCoordinates(ms[j]) && Admits(DistanceTo(lat, lon, ms[j], dist), limit) ==>
                 DistanceTo(lat, lon, r.value, dist) <= DistanceTo(lat, lon, ms[j], dist))
  {
    var ds := Distances(lat, lon, candidates, dist);
    NearestSpec(ds, limit);
    DistancesAt(lat, lon, candidates, dist);
    forall j | 0 <= j < |ms| && keep(ms[j]) && HasCoordinates(ms[j])
      ensures exists k :: 0 <= k < |candidates| && candidates[k] == ms[j] && ds[k] == DistanceTo(lat, lon, ms[j], dist)
    {
      assert ms[j] in candidates;
      var k :| 0 <= k < |candidates| && candidates[k] == ms[j];
    }
    var best := Nearest(ds, limit);
    if best.Some? {
      var m := candidates[best.value];
      assert m in ms && keep(m);
      var j :| 0 <= j < |ms| && ms[j] == m;
      assert Admits(DistanceTo(lat, lon, ms[j], dist), limit);
    }
  }

  /** The located input mountains of the block around `(lat, lon)` are
      exactly the mountains the index returns as nearby. */
  lemma NearbyMembers(index: SpatialIndex, lat: real, lon: real, m: MountainData)
    requires index.Valid()
    ensures m in index.Nearby(lat, lon) <==>
      m in index.mountains && InBlock(m, index.gridSize, CellOf(lat, lon, index.gridSize))
  {
    var c := CellOf(lat, lon, index.gridSize);
    var kept := Filter(index.mountains, BlockFilter(index.gridSize, c));
    FilterSpec(index.mountains, BlockFilter(index.gridSize, c));
    assert m in index.Nearby(lat, lon) <==> m in multiset(kept);
    if m in index.mountains && InBlock(m, index.gridSize, c) {
      var j :| 0 <= j < |index.mountains| && index.mountains[j] == m;
      assert m in kept;
    }
  }

  class MountainProximityService {
    const spatialIndex: SpatialIndex

    ghost predicate Valid() {
      spatialIndex.Valid() && spatialIndex.gridSize == DefaultGridSize
    }

    /** The service indexes the mountains it is given, with the default cell size. */
    constructor (mountains: seq<MountainData>)
      ensures Valid() && spatialIndex.mountains == mountains
    {
      spatialIndex := new SpatialIndex(mountains, DefaultGridSize);
    }

    /** `findMountainAtCoordinates`: the index's exact lookup. */
    function FindMountainAtCoordinates(c: Coordinates.Coordinates): (r: Option<MountainData>)
      requires Valid()
      ensures r.Some? <==> exists i :: 0 <= i < |spatialIndex.mountains| && At(spatialIndex.mountains[i], c.lat, c.lon)
      ensures r.Some? ==> r.value in spatialIndex.mountains && At(r.value, c.lat, c.lon)
      ensures r.Some? ==>
        exists i :: 0 <= i < |spatialIndex.mountains| && spatialIndex.mountains[i] == r.value &&
          forall j :: i < j < |spatialIndex.mountains| ==> !At(spatialIndex.mountains[j], c.lat, c.lon)
    {
      spatialIndex.FindExact(c.lat, c.lon)
    }

    /** The candidates of the scan: the index's neighbourhood of `c`. */
    function Candidates(c: Coordinates.Coordinates): (nearby: seq<MountainData>)
      requires Valid()
      ensures AllLocated(nearby)
    {
      var nearby := spatialIndex.Nearby(c.lat, c.lon);
      assert forall i :: 0 <= i < |nearby| ==> InBlock(nearby[i], spatialIndex.gridSize, CellOf(c.lat, c.lon, spatialIndex.gridSize));
      nearby
    }

    /** What `findNearestMountain(c, limit)` returns: the exact hit if there
        is one, otherwise the candidate the scan keeps. */
    function NearestMountain(c: Coordinates.Coordinates, limit: Limit, dist: Distance): (r: Option<MountainData>)
      requires Valid()
    {
      var exact := FindMountainAtCoordinates(c);
      if exact.Some? then exact
      else
        Closest(c.lat, c.lon, Candidates(c), limit, dist)
    }

    /** `findNearestMountain`: an exact hit is returned at once; otherwise
        the candidates are scanned in neighbourhood order, keeping one whose
        distance is within the threshold and strictly below the best so far. */
    method FindNearestMountain(c: Coordinates.Coordinates, limit: Limit, dist: Distance) returns (nearest: Option<MountainData>)
      requires Valid()
      ensures nearest == NearestMountain(c, limit, dist)
    {
      var exactMatch := FindMountainAtCoordinates(c);
      if exactMatch.Some? {
        return exactMatch;
      }
      var nearbyMountains := spatialIndex.GetNearbyMountains(c.lat, c.lon);
      assert AllLocated(nearbyMountains) by {
        assert nearbyMountains == Candidates(c);
      }
      nearest := Scan(c.lat, c.lon, nearbyMountains, limit, dist);
    }

    /** `getMountainIdForPlace`: the `mid` of the nearest mountain within
        the default 5 km of the place. */
    method GetMountainIdForPlace(place: Places.Place, dist: Distance) returns (mid: Option<string>)
      requires Valid()
      ensures mid.Some? <==> NearestMountain(place.coordinates, DefaultThreshold, dist).Some?
      ensures mid.Some? ==> mid.value == NearestMountain(place.coordinates, DefaultThreshold, dist).value.mid
    {
      var mountain := FindNearestMountain(place.coordinates, DefaultThreshold, dist);
      mid := if mountain.Some? then Some(mountain.value.mid) else None;
    }

    /** `getDistanceToNearestMountain`: the distance to the mountain found
        with no threshold, or nothing when none is found. */
    method GetDistanceToNearestMountain(c: Coordinates.Coordinates, dist: Distance) returns (d: Option<real>)
      requires Valid()
      ensures d.None? <==> NearestMountain(c, Unbounded, dist).None?
      ensures d.Some? ==>
        var m := NearestMountain(c, Unbounded, dist).value;
        HasCoordinates(m) && d.value == DistanceTo(c.lat, c.lon, m, dist)
    {
      var mountain := FindNearestMountain(c, Unbounded, dist);
      if mountain.None? {
        return None;
      }
      NearestMountainSpec(c, Unbounded, dist);
      d := Some(dist(c.lat, c.lon, mountain.value.lat.value, mountain.value.lon.value));
    }

    /** The candidates are exactly the located input mountains of the
        block around `c`. */
    lemma CandidatesAreBlock(c: Coordinates.Coordinates)
      requires Valid()
      ensures forall m :: m in Candidates(c) <==>
        m in spatialIndex.mountains && BlockFilter(spatialIndex.gridSize, CellOf(c.lat, c.lon, spatialIndex.gridSize))(m)
    {
      forall m {
        NearbyMembers(spatialIndex, c.lat, c.lon, m);
      }
    }

    /** An exact hit wins whatever the threshold. Otherwise the result is
        the first of the closest admissible candidates in neighbourhood
        order, and there is none exactly when no candidate is admissible. */
    lemma NearestMountainSpec(c: Coordinates.Coordinates, limit: Limit, dist: Distance)
      requires Valid()
      ensures var r := NearestMountain(c, limit, dist);
        && (r.Some? ==> r.value in spatialIndex.mountains && HasCoordinates(r.value))
        && (FindMountainAtCoordinates(c).Some? ==> r == FindMountainAtCoordinates(c))
        && (FindMountainAtCoordinates(c).None? ==>
              var nearby := Candidates(c);
              && (r.None? <==> forall i :: 0 <= i < |nearby| ==> !Admits(DistanceTo(c.lat, c.lon, nearby[i], dist), limit))
              && (r.Some? ==>
                    exists i :: 0 <= i < |nearby| && r.value == nearby[i] &&
                      IsFirstNearest(Distances(c.lat, c.lon, nearby, dist), limit, i)))
    {
      if FindMountainAtCoordinates(c).None? {
        ClosestSpec(c.lat, c.lon, Candidates(c), limit, dist);
        CandidatesAreBlock(c);
      }
    }

    /** Stated over the input: with no exact hit, the result is a located
        input mountain of the block around `c` within the threshold, no
        such mountain is closer, and there is no result exactly when the
        block holds no input mountain within the threshold. */
    lemma NearestAmongInputs(c: Coordinates.Coordinates, limit: Limit, dist: Distance)
      requires Valid()
      requires FindMountainAtCoordinates(c).None?
      ensures var r := NearestMountain(c, limit, dist);
        var g := spatialIndex.gridSize;
        var ms := spatialIndex.mountains;
        var cell := CellOf(c.lat, c.lon, g);
        && (r.None? <==> forall j :: 0 <= j < |ms| && InBlock(ms[j], g, cell) ==> !Admits(DistanceTo(c.lat, c.lon, ms[j], dist), limit))
        && (r.Some? ==>
              && r.value in ms && InBlock(r.value, g, cell)
              && Admits(DistanceTo(c.lat, c.lon, r.value, dist), limit)
              && forall j :: 0 <= j < |ms| && InBlock(ms[j], g, cell) && Admits(DistanceTo(c.lat, c.lon, ms[j], dist), limit) ==>
                   DistanceTo(c.lat, c.lon, r.value, dist) <= DistanceTo(c.lat, c.lon, ms[j], dist))
    {
      CandidatesAreBlock(c);
      var g := spatialIndex.gridSize;
      ClosestAmong(c.lat, c.lon, Candidates(c), limit, dist, spatialIndex.mountains, BlockFilter(g, CellOf(c.lat, c.lon, g)));
    }

    /** Raising the threshold never changes a mountain already found. */
    lemma NearestMountainWiden(c: Coordinates.Coordinates, small: Limit, large: Limit, dist: Distance)
      requires Valid()
      requires AtMost(small, large)
      requires NearestMountain(c, small, dist).Some?
      ensures NearestMountain(c, large, dist) == NearestMountain(c, small, dist)
    {
      if FindMountainAtCoordinates(c).None? {
        NearestWiden(Distances(c.lat, c.lon, Candidates(c), dist), small, large);
      }
    }

    /** Without a threshold a mountain is found exactly when the block
        around `c` holds some located input mountain. */
    lemma UnboundedFindsAny(c: Coordinates.Coordinates, dist: Distance)
      requires Valid()
      ensures NearestMountain(c, Unbounded, dist).Some? <==>
        exists j :: 0 <= j < |spatialIndex.mountains| &&
          InBlock(spatialIndex.mountains[j], spatialIndex.gridSize, CellOf(c.lat, c.lon, spatialIndex.gridSize))
    {
      var g := spatialIndex.gridSize;
      var ms := spatialIndex.mountains;
      var cell := CellOf(c.lat, c.lon, g);
      var exact := FindMountainAtCoordinates(c);
      if exact.Some? {
        var j :| 0 <= j < |ms| && At(ms[j], c.lat, c.lon);
        assert InBlock(ms[j], g, cell);
      } else {
        NearestAmongInputs(c, Unbounded, dist);
      }
    }

    /** When every located input mountain within the threshold lies in the
        block around `c` (the cells are wide enough for the threshold), the
        indexed search loses nothing against a scan of all the mountains. */
    lemma NearestIsGlobal(c: Coordinates.Coordinates, limit: Limit, dist: Distance)
      requires Valid()
      requires FindMountainAtCoordinates(c).None?
      requires forall j :: (0 <= j < |spatialIndex.mountains| && HasCoordinates(spatialIndex.mountains[j]) &&
        Admits(DistanceTo(c.lat, c.lon, spatialIndex.mountains[j], dist), limit)) ==>
        InBlock(spatialIndex.mountains[j], spatialIndex.gridSize, CellOf(c.lat, c.lon, spatialIndex.gridSize))
      ensures var r := NearestMountain(c, limit, dist);
        var ms := spatialIndex.mountains;
        && (r.None? <==> forall j :: 0 <= j < |ms| && HasCoordinates(ms[j]) ==> !Admits(DistanceTo(c.lat, c.lon, ms[j], dist), limit))
        && (r.Some? ==> forall j :: 0 <= j < |ms| && HasCoordinates(ms[j]) && Admits(DistanceTo(c.lat, c.lon, ms[j], dist), limit) ==>
              DistanceTo(c.lat, c.lon, r.value, dist) <= DistanceTo(c.lat, c.lon, ms[j], dist))
    {
      NearestAmongInputs(c, limit, dist);
    }
  }
}
