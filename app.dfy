/**
 The module-level state of app.js: the list of registered points, the
 registration done by the map's click handler, and calculateCentroids.
 The map widget, markers, popups, `prompt` and `alert` are not modelled;
 the head-count answer arrives already parsed.
 */
module App {

  import opened Wrappers
  import opened Geo

  /** What calculateCentroids computes: the weighted and the plain centroid. */
  datatype Centroids = Centroids(weighted: Option<LatLng>, simple: LatLng)

  /** The `points` array of app.js together with the operations that use it. */
  class PointStore {

    var points: seq<Point>

    /** The store starts empty. */
    constructor ()
      ensures points == []
    {
      points := [];
    }

    /**
     The click handler. `answer` is the head-count typed at the prompt:
     None when the prompt was cancelled, left empty, or holds text that is
     not a number; otherwise the number it reads as. A rejected answer
     leaves the points alone; an accepted one, zero and negative numbers
     included, appends exactly one point at the clicked position.
     */
    method Register(lat: real, lng: real, answer: Option<real>)
      modifies this
      ensures answer.None? ==> points == old(points)
      ensures answer.Some? ==> points == old(points) + [Point(lat, lng, answer.value)]
    {
      if answer.None? {
        return;
      }
      points := points + [Point(lat, lng, answer.value)];
    }

    /**
     calculateCentroids. With no points there is nothing to compute and the
     result is None. Otherwise app.js's two forEach loops give
     the weighted centroid (absent when the head-counts total zero) and
     the plain centroid of the registered points.
     */
    method CalculateCentroids() returns (r: Option<Centroids>)
      ensures r.None? <==> points == []
      ensures r.Some? ==> r.value.weighted == WeightedCentroid(points)
      ensures r.Some? ==> r.value.simple == SimpleCentroid(points)
    {
      if |points| == 0 {
        return None;
      }

      // weighted by head-count
      var sumLatW, sumLngW, sumPeople := 0.0, 0.0, 0.0;
      for i := 0 to |points|
        invariant sumLatW == Sum(points[..i], Weighted(Lat))
        invariant sumLngW == Sum(points[..i], Weighted(Lng))
        invariant sumPeople == Sum(points[..i], People)
      {
        var p := points[i];
        assert points[..i + 1][..i] == points[..i];
        assert Weighted(Lat)(p) == Lat(p) * p.people;
        assert Weighted(Lng)(p) == Lng(p) * p.people;
        sumLatW := sumLatW + p.lat * p.people;
        sumLngW := sumLngW + p.lng * p.people;
        sumPeople := sumPeople + p.people;
      }
      assert points[..|points|] == points;
      var weighted := if sumPeople == 0.0 then None
                      else Some(LatLng(sumLatW / sumPeople, sumLngW / sumPeople));

      // unweighted
      var sumLat, sumLng := 0.0, 0.0;
      for i := 0 to |points|
        invariant sumLat == Sum(points[..i], Lat)
        invariant sumLng == Sum(points[..i], Lng)
      {
        var p := points[i];
        assert points[..i + 1][..i] == points[..i];
        sumLat := sumLat + p.lat;
        sumLng := sumLng + p.lng;
      }
      var n := |points| as real;
      r := Some(Centroids(weighted, LatLng(sumLat / n, sumLng / n)));
    }
  }
}
