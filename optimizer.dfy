/**
 * DeliveryOptimizer: reorders the deliveries by a swap-and-keep-best walk
 * over permutations, scored by straight-line ("crow") tour distance.
 *
 * The random source is an oracle `rand`, where rand(k) is the value of the
 * k-th call of rand() in the run (three calls per iteration: two positions
 * and one coin).  exp() and the earth distance are parameters too.  The
 * temperature is kept as an exact real.
 */
module Optimizer {
  import opened Geo

  /** The length of a walk through the points, summed from the first leg to the last. */
  function WalkLength(dist: (GeoCoord, GeoCoord) -> real, pts: seq<GeoCoord>): real
    decreases |pts|
  {
    if |pts| <= 1 then 0.0
    else WalkLength(dist, pts[..|pts| - 1]) + dist(pts[|pts| - 2], pts[|pts| - 1])
  }

  /** The locations of the deliveries, in order. */
  function Stops(order: seq<DeliveryRequest>): (pts: seq<GeoCoord>)
    ensures |pts| == |order|
    ensures forall i :: 0 <= i < |order| ==> pts[i] == order[i].location
  {
    seq(|order|, i requires 0 <= i < |order| => order[i].location)
  }

  /** The crow distance of a tour: depot, every stop in order, and back to the depot. */
  function TourCost(dist: (GeoCoord, GeoCoord) -> real, depot: GeoCoord, order: seq<DeliveryRequest>): real
  {
    WalkLength(dist, [depot] + Stops(order) + [depot])
  }

  /** Extending a walk by one point adds exactly the leg to that point. */
  lemma {:induction false} WalkLengthSnoc(dist: (GeoCoord, GeoCoord) -> real, pts: seq<GeoCoord>, p: GeoCoord)
    requires |pts| >= 1
    ensures WalkLength(dist, pts + [p]) == WalkLength(dist, pts) + dist(pts[|pts| - 1], p)
  {
    var q := pts + [p];
    assert q[..|q| - 1] == pts;
    assert q[|q| - 2] == pts[|pts| - 1] && q[|q| - 1] == p;
  }

  /** With no negative leg, no tour has a negative cost. */
  lemma {:induction false} WalkLengthNonNegative(dist: (GeoCoord, GeoCoord) -> real, pts: seq<GeoCoord>)
    requires forall a, b :: dist(a, b) >= 0.0
    ensures WalkLength(dist, pts) >= 0.0
    decreases |pts|
  {
    if |pts| > 1 {
      WalkLengthNonNegative(dist, pts[..|pts| - 1]);
    }
  }

  /** A tour visiting nothing is the round trip from the depot to itself. */
  lemma TourCostEmpty(dist: (GeoCoord, GeoCoord) -> real, depot: GeoCoord)
    ensures TourCost(dist, depot, []) == dist(depot, depot)
  {
    assert Stops([]) == [];
    assert [depot] + Stops([]) + [depot] == [depot] + [depot];
    WalkLengthSnoc(dist, [depot], depot);
  }

  /**
   * The distance loop (run once onto oldCrowDistance, once per candidate
   * from 0): add each leg from the depot through the stops, then the leg back.
   */
  method CrowDistance(dist: (GeoCoord, GeoCoord) -> real, depot: GeoCoord, order: seq<DeliveryRequest>, start: real)
    returns (d: real)
    ensures d == start + TourCost(dist, depot, order)
  {
    d := start;
    var g := depot;
    ghost var walk := [depot];
    for i := 0 to |order|
      invariant |walk| == i + 1 && walk[0] == depot && g == walk[i]
      invariant forall k :: 0 <= k < i ==> walk[k + 1] == order[k].location
      invariant d == start + WalkLength(dist, walk)
    {
      WalkLengthSnoc(dist, walk, order[i].location);
      d := d + dist(g, order[i].location);
      g := order[i].location;
      walk := walk + [g];
    }
    assert walk == [depot] + Stops(order);
    WalkLengthSnoc(dist, walk, depot);
    d := d + dist(g, depot);
  }

  /** exp as the optimizer uses it: on non-positive arguments it lies in (0, 1]. */
  ghost predicate DecayLike(exp: real -> real)
  {
    forall x :: x <= 0.0 ==> 0.0 < exp(x) <= 1.0
  }

  /**
   * calculateProbability: a strictly shorter candidate scores 1; otherwise
   * exp of the (non-positive) difference over the temperature.
   */
  function CalculateProbability(currentDis: real, copyDis: real, temperature: real, exp: real -> real): (p: real)
    requires temperature > 0.0
    ensures copyDis < currentDis ==> p == 1.0
    ensures DecayLike(exp) ==> 0.0 < p <= 1.0
    ensures copyDis == currentDis ==> p == exp(0.0)
  {
    if copyDis < currentDis then 1.0 else exp((currentDis - copyDis) / temperature)
  }

  /** The acceptance test: the score must exceed rand() % 2, i.e. 0 or 1. */
  predicate Accepts(p: real, draw: nat)
  {
    p > (draw % 2) as real
  }

  /**
   * Because the score never exceeds 1, a candidate is accepted exactly when
   * the coin is even, whether it improves the tour or not: the score itself
   * plays no part.
   */
  lemma AcceptIffEvenDraw(currentDis: real, copyDis: real, temperature: real, exp: real -> real, draw: nat)
    requires temperature > 0.0 && DecayLike(exp)
    ensures Accepts(CalculateProbability(currentDis, copyDis, temperature, exp), draw) <==> draw % 2 == 0
  {
    var p := CalculateProbability(currentDis, copyDis, temperature, exp);
    assert 0.0 < p <= 1.0;
    if draw % 2 == 1 {
      assert (draw % 2) as real == 1.0;
    }
  }

  /** The temperature before iteration i: 10000, cooled by a factor 0.8 per iteration. */
  function Temperature(i: nat): (t: real)
    ensures t > 0.0
  {
    if i == 0 then 10000.0 else Temperature(i - 1) * 0.8
  }

  /** iter_swap on a copy: the entries at the two positions trade places. */
  function Swapped(s: seq<DeliveryRequest>, i: nat, j: nat): (r: seq<DeliveryRequest>)
    requires i < |s| && j < |s|
    ensures |r| == |s| && r[i] == s[j] && r[j] == s[i]
    ensures forall k :: 0 <= k < |s| && k != i && k != j ==> r[k] == s[k]
    ensures multiset(r) == multiset(s)
  {
    s[i := s[j]][j := s[i]]
  }

  /**
   * What the loop keeps: current and the best order are permutations of the
   * original; each distance is the original accumulated value for the
   * original order or the true tour cost; the best never exceeds that
   * starting value, and falls strictly below it only with its true cost.
   */
  ghost predicate Annealing(dist: (GeoCoord, GeoCoord) -> real, depot: GeoCoord,
                            original: seq<DeliveryRequest>, oldCrow: real,
                            current: seq<DeliveryRequest>, currentDis: real,
                            best: seq<DeliveryRequest>, bestDis: real)
  {
    && multiset(current) == multiset(original) && |current| == |original|
    && multiset(best) == multiset(original) && |best| == |original|
    && ((current == original && currentDis == oldCrow) || currentDis == TourCost(dist, depot, current))
    && ((best == original && bestDis == oldCrow) || (bestDis < oldCrow && bestDis == TourCost(dist, depot, best)))
  }

  /** Accepting a candidate and then keeping the better of it and the best keeps the invariant. */
  lemma AnnealingStep(dist: (GeoCoord, GeoCoord) -> real, depot: GeoCoord,
                      original: seq<DeliveryRequest>, oldCrow: real,
                      current: seq<DeliveryRequest>, currentDis: real,
                      best: seq<DeliveryRequest>, bestDis: real,
                      current': seq<DeliveryRequest>, currentDis': real,
                      best': seq<DeliveryRequest>, bestDis': real,
                      potential: seq<DeliveryRequest>, accepted: bool)
    requires Annealing(dist, depot, original, oldCrow, current, currentDis, best, bestDis)
    requires multiset(potential) == multiset(current) && |potential| == |current|
    requires current' == (if accepted then potential else current)
    requires currentDis' == (if accepted then TourCost(dist, depot, potential) else currentDis)
    requires best' == (if currentDis' < bestDis then current' else best)
    requires bestDis' == (if currentDis' < bestDis then currentDis' else bestDis)
    ensures Annealing(dist, depot, original, oldCrow, current', currentDis', best', bestDis')
  {
  }

  /**
   * optimizeDeliveryOrder.  `deliveries` is in/out: the result is the best
   * order met.  oldCrowDistance is accumulated onto its incoming value, which
   * also seeds the best and current distances; the loop runs n^3 times.
   */
  method OptimizeDeliveryOrder(dist: (GeoCoord, GeoCoord) -> real, rand: nat -> nat, exp: real -> real,
                               depot: GeoCoord, deliveries: seq<DeliveryRequest>, oldCrowIn: real)
    returns (best: seq<DeliveryRequest>, oldCrow: real, newCrow: real)
    ensures oldCrow == oldCrowIn + TourCost(dist, depot, deliveries)
    ensures multiset(best) == multiset(deliveries) && |best| == |deliveries|
    ensures newCrow <= oldCrow
    ensures (best == deliveries && newCrow == oldCrow) || (newCrow < oldCrow && newCrow == TourCost(dist, depot, best))
    ensures |deliveries| <= 1 ==> best == deliveries
    ensures |deliveries| == 0 ==> newCrow == oldCrow
    ensures oldCrowIn == 0.0 ==> newCrow == TourCost(dist, depot, best)
  {
    var n := |deliveries|;
    var temperature := 10000.0;
    var current := deliveries;
    best := deliveries;
    oldCrow := CrowDistance(dist, depot, deliveries, oldCrowIn);
    var currentDis := oldCrow;
    var bestDis := oldCrow;
    var threshold := n * n * n;
    for i := 0 to threshold
      invariant temperature == Temperature(i)
      invariant Annealing(dist, depot, deliveries, oldCrow, current, currentDis, best, bestDis)
      invariant n <= 1 ==> best == deliveries && current == deliveries
      invariant n == 0 ==> bestDis == oldCrow
    {
      var pos1 := rand(3 * i) % n;
      var pos2 := rand(3 * i + 1) % n;
      var potential := Swapped(current, pos1, pos2);
      var potentialDis := CrowDistance(dist, depot, potential, 0.0);
      var p := CalculateProbability(currentDis, potentialDis, temperature, exp);
      var current', currentDis' := current, currentDis;
      var accepted := Accepts(p, rand(3 * i + 2));
      if accepted {
        current', currentDis' := potential, potentialDis;
      }
      var best', bestDis' := best, bestDis;
      if currentDis' < bestDis {
        best', bestDis' := current', currentDis';
      }
      AnnealingStep(dist, depot, deliveries, oldCrow, current, currentDis, best, bestDis,
                    current', currentDis', best', bestDis', potential, accepted);
      if n == 1 {
        assert potential == current;
      }
      current, currentDis, best, bestDis := current', currentDis', best', bestDis';
      temperature := temperature * 0.8;
    }
    newCrow := bestDis;
  }
}
