# Meeting-point map: point registration and centroids

This project is a Dafny model of the core of a small map application, `app.js`.
A user clicks on a map and types how many people are at that spot. The app keeps
these registered points in a module-level `points` array. On request,
`calculateCentroids` computes two meeting points:

- the **weighted** centroid: the mean of the latitudes and of the longitudes,
  weighted by the head-counts (`Σ lat·people / Σ people`, the same for longitude);
- the **unweighted** centroid: the plain mean (`Σ lat / n`, `Σ lng / n`).

Both are planar averages of latitude and longitude, exactly as the code
computes them. They are not spherical or Cartesian constructions.

Layout:

- `wrappers.dfy`, module `Wrappers`: the `Option` datatype.
- `geo.dfy`, module `Geo`: the `Point` and `LatLng` values, the recursive `Sum`
  over points that the loops accumulate, the two centroids as specification
  functions (`WeightedCentroid`, `SimpleCentroid`), and the lemmas about them.
- `app.dfy`, module `App`: the class `PointStore`. Its field `points: seq<Point>`
  is the `points` array. `Register` is the click handler. `CalculateCentroids` is
  `calculateCentroids`, with app.js's two forEach loops proved against `Sum`.

Modelling decisions:

- Coordinates and head-counts are exact `real`s, not IEEE-754 doubles.
- The answer to the head-count prompt arrives already parsed, as `Option<real>`.
  `None` stands for every answer the check `!people || isNaN(people)` rejects: a
  cancelled prompt, an empty answer, or text that is not a number. `Some(x)` is
  an accepted answer whose `Number(...)` value is `x`.
- The code does not require a head-count of at least 1. Zero and negative values
  pass the check and are stored. The weighted centroid therefore divides by a
  total that can be 0. The model returns `None` for the weighted centroid in
  that case, where the code would produce NaN or an infinity. The unweighted
  centroid is always defined once there is at least one point.
- With no points, `CalculateCentroids` returns `None` and computes nothing. It
  has no `modifies` clause, so it cannot change the store.

## Model

| member | source | states |
|---|---|---|
| `App.PointStore.constructor` | app.js:10 | The store starts with no points. |
| `App.PointStore.Register` | app.js:13-25 | A rejected answer (cancelled, empty, not a number) leaves `points` unchanged. An accepted answer `x` appends exactly one point `{lat, lng, people: x}` at the end. Earlier points keep their order and values, and the length grows by one. Zero and negative head-counts are accepted. |
| `App.PointStore.CalculateCentroids` | app.js:28-58 | Returns `None` exactly when there are no points, and never changes the store. Otherwise the two accumulator loops yield the weighted centroid `(Σ lat·people / Σ people, Σ lng·people / Σ people)`, absent when `Σ people = 0`, and the unweighted centroid `(Σ lat / n, Σ lng / n)`. The loop invariants tie each accumulator to `Sum` over the points already visited. |
| `Geo.SumAppend` | app.js:39-43 | Accumulating over two runs of points one after the other gives the sum of the two separate totals. |
| `Geo.SumRemoveAt` | app.js:39-43 | Any single point's contribution can be taken out of a total: the total is the sum over the remaining points plus that point's term. |
| `Geo.SumPermutation` | app.js:39-55 | Every accumulated total is the same for any reordering of the points, as a multiset permutation. |
| `Geo.CentroidsIgnoreOrder` | app.js:39-58 | The weighted and the unweighted centroid are unchanged by any permutation of the points. |
| `Geo.UniformTotal` | app.js:42 | When every head-count equals `w`, the head-count total is `w·n`. |
| `Geo.UniformSum` | app.js:39-41 | When every head-count equals `w`, the weighted coordinate total is `w` times the plain coordinate total. |
| `Geo.UniformWeightsAgree` | app.js:39-58 | When every point has the same nonzero head-count, the weighted centroid exists and equals the unweighted centroid. |
| `Geo.SumAbove` | app.js:52-55 | If a coordinate is at least `lo` at every point, its total is at least `lo·n`. |
| `Geo.SumBelow` | app.js:52-55 | If a coordinate is at most `hi` at every point, its total is at most `hi·n`. |
| `Geo.MeanBounds` | app.js:57-58 | If a coordinate lies in `[lo, hi]` at every point, its plain mean lies in `[lo, hi]`. |
| `Geo.SimpleCentroidInRange` | app.js:49-58 | The unweighted centroid's latitude lies between the smallest and largest latitude of the points, and likewise for longitude. |
| `Geo.SumPeoplePositive` | app.js:42 | If there is at least one point and every head-count is positive, the head-count total is positive, so the weighted division is defined. |
| `Geo.WeightedSumAbove` | app.js:39-43 | If every head-count is positive and a coordinate is at least `lo` at every point, then `Σ coord·people ≥ lo·Σ people`. |
| `Geo.WeightedSumBelow` | app.js:39-43 | If every head-count is positive and a coordinate is at most `hi` at every point, then `Σ coord·people ≤ hi·Σ people`. |
| `Geo.WeightedMeanBounds` | app.js:45-46 | If every head-count is positive and a coordinate lies in `[lo, hi]` at every point, the weighted mean of that coordinate lies in `[lo, hi]`. |
| `Geo.WeightedCentroidInRange` | app.js:35-46 | If there is at least one point and every head-count is positive, the weighted centroid exists. Its latitude lies between the smallest and largest latitude of the points, and likewise for longitude. |

## Left out

- App.PointStore.CalculateCentroids: when the head-counts total zero it reports the weighted centroid as absent, where the code goes on to compute NaN or an infinity from the division (app.js:45-46).
- Map widget calls: map and tile-layer setup, markers, icons, popups, `setView` (app.js:2-7, 17-18, 60-75). These are display work in a third-party library with no logic of their own.
- `prompt` and `alert` (app.js:14, 30): user I/O. The prompt's answer is a parameter of `Register`.
- JavaScript's string-to-number conversion (`isNaN`, `Number`) is not modelled. It is abstracted into the `Option<real>` answer. For example, a blank answer of spaces passes `isNaN` in JavaScript and becomes 0; the caller of `Register` decides what such text parses to.
- IEEE-754 behaviour: rounding of the accumulators, infinities, and NaN from `0/0`. Arithmetic is exact; a zero head-count total gives an absent weighted centroid instead of NaN.
- The case where a marker for a NaN centroid makes the map library throw before the unweighted marker is drawn. This is display behaviour.
- sw.js (the service worker's install, activate and fetch handlers over the browser cache) is not part of this model. It is asynchronous caching plumbing with no computation to state.
