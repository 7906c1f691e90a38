/** The center picker: among coordinate sources that agree on a country, the
    one whose coordinates stand for them all. */
module Center {

  /** A source name with the coordinates it reports, in coordinate-priority order. */
  datatype Candidate = Candidate(name: string, lat: string, lon: string)

  /** The planar distance between two coordinate pairs, given as text; the
      floating-point formula is a parameter of the model. */
  type Distance = (string, string, string, string) -> real

  function Dist(dist: Distance, a: Candidate, b: Candidate): real
  {
    dist(a.lat, a.lon, b.lat, b.lon)
  }

  function Max(x: real, y: real): real
  {
    if y > x then y else x
  }

  /** The running maximum of the pair loop after rows [0, a): every pair
      (i, j) with i < a and i < j, starting from 0. */
  function SpreadRows(cs: seq<Candidate>, dist: Distance, a: nat): (m: real)
    requires a <= |cs|
    ensures m >= 0.0
    ensures forall i, j :: 0 <= i < a && i < j < |cs| ==> Dist(dist, cs[i], cs[j]) <= m
    ensures m == 0.0 || exists i, j :: 0 <= i < a && i < j < |cs| && m == Dist(dist, cs[i], cs[j])
  {
    if a == 0 then 0.0 else SpreadRow(cs, dist, a - 1, SpreadRows(cs, dist, a - 1), |cs|)
  }

  /** Continues the running maximum `m` with the pairs (a, j), a < j < b. */
  function SpreadRow(cs: seq<Candidate>, dist: Distance, a: nat, m: real, b: nat): (r: real)
    requires a < |cs| && a <= b <= |cs|
    ensures r >= m
    ensures forall j :: a < j < b ==> Dist(dist, cs[a], cs[j]) <= r
    ensures r == m || exists j :: a < j < b && r == Dist(dist, cs[a], cs[j])
    decreases b
  {
    if b <= a + 1 then m else Max(SpreadRow(cs, dist, a, m, b - 1), Dist(dist, cs[a], cs[b - 1]))
  }

  /** `max_dist`: the largest distance between two candidates, or 0. */
  function MaxSpread(cs: seq<Candidate>, dist: Distance): real
  {
    SpreadRows(cs, dist, |cs|)
  }

  /** The spread is within the threshold exactly when the threshold is not
      negative and every pair of candidates is within it. */
  lemma MaxSpreadWithin(cs: seq<Candidate>, dist: Distance, threshold: real)
    ensures MaxSpread(cs, dist) <= threshold <==>
      threshold >= 0.0 && forall i, j :: 0 <= i < j < |cs| ==> Dist(dist, cs[i], cs[j]) <= threshold
  {
  }

  /** The sum of the distances from candidate `k` to candidates [0, j) other than itself. */
  function TotalTo(cs: seq<Candidate>, dist: Distance, k: nat, j: nat): real
    requires k < |cs| && j <= |cs|
  {
    if j == 0 then 0.0
    else TotalTo(cs, dist, k, j - 1) + (if j - 1 == k then 0.0 else Dist(dist, cs[k], cs[j - 1]))
  }

  function Total(cs: seq<Candidate>, dist: Distance, k: nat): real
    requires k < |cs|
  {
    TotalTo(cs, dist, k, |cs|)
  }

  /** The scan for the smallest total: `best` is the answer over [0, idx);
      a later candidate replaces it only when its total is strictly smaller. */
  function BestFrom(cs: seq<Candidate>, dist: Distance, idx: nat, best: nat): (r: nat)
    requires best < idx <= |cs|
    requires forall j :: 0 <= j < idx ==> Total(cs, dist, best) <= Total(cs, dist, j)
    requires forall j :: 0 <= j < best ==> Total(cs, dist, j) > Total(cs, dist, best)
    ensures r < |cs|
    ensures forall j :: 0 <= j < |cs| ==> Total(cs, dist, r) <= Total(cs, dist, j)
    ensures forall j :: 0 <= j < r ==> Total(cs, dist, j) > Total(cs, dist, r)
    decreases |cs| - idx
  {
    if idx == |cs| then best
    else if Total(cs, dist, idx) < Total(cs, dist, best) then BestFrom(cs, dist, idx + 1, idx)
    else BestFrom(cs, dist, idx + 1, best)
  }

  /** The position of the candidate `pick_center_coords` returns. */
  function CenterIndex(cs: seq<Candidate>, dist: Distance, threshold: real): (k: nat)
    requires |cs| > 0
    ensures k < |cs|
  {
    if |cs| < 3 then 0
    else if MaxSpread(cs, dist) <= threshold then 0
    else BestFrom(cs, dist, 1, 0)
  }

  /** `pick_center_coords`: (lat, lon, name) of the chosen candidate. */
  function PickCenterCoords(cs: seq<Candidate>, dist: Distance, threshold: real): (r: (string, string, string))
    requires |cs| > 0
  {
    var c := cs[CenterIndex(cs, dist, threshold)];
    (c.lat, c.lon, c.name)
  }

  /** Fewer than three candidates, or all within the threshold of each other:
      the highest-priority candidate is returned. */
  lemma CenterIsFirst(cs: seq<Candidate>, dist: Distance, threshold: real)
    requires |cs| > 0
    requires |cs| < 3 || (threshold >= 0.0 && forall i, j :: 0 <= i < j < |cs| ==> Dist(dist, cs[i], cs[j]) <= threshold)
    ensures PickCenterCoords(cs, dist, threshold) == (cs[0].lat, cs[0].lon, cs[0].name)
  {
    MaxSpreadWithin(cs, dist, threshold);
  }

  /** Three or more candidates, and the threshold negative or some pair
      farther apart than it: the candidate with the smallest total distance to
      the others, the first one among equal totals. */
  lemma CenterIsMedian(cs: seq<Candidate>, dist: Distance, threshold: real)
    requires |cs| >= 3
    requires !(threshold >= 0.0 && forall i, j :: 0 <= i < j < |cs| ==> Dist(dist, cs[i], cs[j]) <= threshold)
    ensures var k := CenterIndex(cs, dist, threshold);
      PickCenterCoords(cs, dist, threshold) == (cs[k].lat, cs[k].lon, cs[k].name) &&
      (forall j :: 0 <= j < |cs| ==> Total(cs, dist, k) <= Total(cs, dist, j)) &&
      (forall j :: 0 <= j < k ==> Total(cs, dist, j) > Total(cs, dist, k))
  {
    MaxSpreadWithin(cs, dist, threshold);
  }
}
